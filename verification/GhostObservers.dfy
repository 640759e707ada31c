/** Sessions and presence together on a stand-alone node: whoever observes somebody has a live session.
    Sockets connect, subscribe, log out, delete their user and close; HTTP requests are not part of the run. */
module GhostObservers {
  import opened Text
  import opened LocalSessions
  import ClusterSessions
  import Delivery
  import Presence
  import SessionRegistry

  datatype Node = Node(endpoint: string, local: Local, index: Presence.Index)

  function Start(endpoint: string): Node {
    Node(endpoint, NOBODY, Presence.NO_INDEX)
  }

  datatype Step =
    | Connect(s: Socket, o: string, u: string, d: string)
    | Subscribe(s: Socket, target: string)
    | Unsubscribe(s: Socket)
    | Leave(s: Socket)      // logout, or close of the socket
    | DeleteUser(s: Socket)

  /** Removing the last connection announces the user as offline, which ends the user's observing
      (base.js:221-237 with the stand-alone branch of `removeUserSession`). */
  function LeaveStep(n: Node, s: Socket): Node
    requires s in n.local.sessions
  {
    var u := n.local.sessions[s].user;
    var l' := Remove(n.local, s, u, DeviceOf(n.local, s, u));
    Node(n.endpoint, l', if l'.Connections(u) == [] then Presence.Apply(n.index, Presence.Activity(u, false)) else n.index)
  }

  /** A step of a socket without a session does nothing, except connecting. */
  function Apply(n: Node, e: Step): Node {
    match e
    case Connect(s, o, u, d) =>
      Node(n.endpoint, ClusterSessions.LoginLocal(n.local, n.endpoint, s, o, u, d), Presence.Apply(n.index, Presence.Activity(u, true)))
    case Subscribe(s, target) =>
      if s in n.local.sessions then n.(index := Presence.Subscribe(n.index, n.local.sessions[s].user, target)) else n
    case Unsubscribe(s) =>
      if s in n.local.sessions then n.(index := Presence.Unsubscribe(n.index, n.local.sessions[s].user)) else n
    case Leave(s) => if s in n.local.sessions then LeaveStep(n, s) else n
    case DeleteUser(s) =>
      if s in n.local.sessions then
        var u := n.local.sessions[s].user;
        Node(n.endpoint, RemoveUserConnections(n.local, s, u), Presence.Unsubscribe(n.index, u))
      else n
  }

  function Run(n: Node, es: seq<Step>): Node {
    if es == [] then n else Apply(Run(n, es[..|es| - 1]), es[|es| - 1])
  }

  /** A socket is used for one user at a time: it does not connect while it has a session of somebody else. */
  predicate OneUserPerSocket(n: Node, e: Step) {
    e.Connect? && e.s in n.local.sessions ==> n.local.sessions[e.s].user == e.u
  }

  ghost predicate OneUserPerSocketRun(endpoint: string, es: seq<Step>)
    decreases |es|
  {
    es != [] ==> OneUserPerSocketRun(endpoint, es[..|es| - 1]) && OneUserPerSocket(Run(Start(endpoint), es[..|es| - 1]), es[|es| - 1])
  }

  ghost predicate HasSession(l: Local, u: string) {
    exists s :: s in l.sessions && l.sessions[s].user == u
  }

  /** Every observer has a live session. */
  ghost predicate NoGhosts(n: Node) {
    forall o :: o in n.index.subscribedTo ==> HasSession(n.local, o)
  }

  /** Every session carries the node's endpoint. */
  ghost predicate Marked(n: Node) {
    forall s :: s in n.local.sessions ==> n.local.sessions[s].node == Some(n.endpoint)
  }

  ghost predicate Inv(n: Node) {
    Tables(n.local) && Backed(n.local) && Presence.Inverse(n.index) && NoGhosts(n) && Marked(n)
  }

  lemma LeaveInv(n: Node, s: Socket)
    requires Inv(n) && s in n.local.sessions
    ensures Inv(LeaveStep(n, s))
  {
    var l, u := n.local, n.local.sessions[s].user;
    var n' := LeaveStep(n, s);
    RemoveTables(l, s, u, DeviceOf(l, s, u));
    RemoveBacked(l, s);
    Presence.UnsubscribeInverse(n.index, u);
    forall o | o in n'.index.subscribedTo ensures HasSession(n'.local, o) {
      if o == u {
        var c := n'.local.Connections(u)[0];
        assert c in n'.local.Connections(u);
        assert c.socket in n'.local.sessions && n'.local.sessions[c.socket].user == u;
      } else {
        var s' :| s' in l.sessions && l.sessions[s'].user == o;
        assert s' in n'.local.sessions && n'.local.sessions[s'].user == o;
      }
    }
  }

  lemma LoginBacked(l: Local, endpoint: string, s: Socket, o: string, u: string, d: string)
    requires Tables(l) && Backed(l) && (s in l.sessions ==> l.sessions[s].user == u)
    ensures var l' := ClusterSessions.LoginLocal(l, endpoint, s, o, u, d); Tables(l') && Backed(l')
  {
    AddContents(l, s, o, u, d);
    AddBackedIff(l, s, o, u, d);
    MarkBacked(Add(l, s, o, u, d), s, endpoint);
  }

  lemma MarkBacked(l: Local, s: Socket, endpoint: string)
    requires Tables(l) && Backed(l)
    ensures Tables(SetNode(l, s, endpoint)) && Backed(SetNode(l, s, endpoint))
  {
    forall u, c | c in SetNode(l, s, endpoint).Connections(u)
      ensures c.socket in SetNode(l, s, endpoint).sessions && SetNode(l, s, endpoint).sessions[c.socket].user == u
    {
      assert c in l.Connections(u);
    }
  }

  lemma ConnectInv(n: Node, s: Socket, o: string, u: string, d: string)
    requires Inv(n) && OneUserPerSocket(n, Connect(s, o, u, d))
    ensures Inv(Apply(n, Connect(s, o, u, d)))
  {
    var n' := Apply(n, Connect(s, o, u, d));
    LoginBacked(n.local, n.endpoint, s, o, u, d);
    forall v | v in n'.index.subscribedTo ensures HasSession(n'.local, v) {
      var s' :| s' in n.local.sessions && n.local.sessions[s'].user == v;
      assert s' in n'.local.sessions && n'.local.sessions[s'].user == v;
    }
  }

  lemma DeleteUserInv(n: Node, s: Socket)
    requires Inv(n) && s in n.local.sessions
    ensures Inv(Apply(n, DeleteUser(s)))
  {
    var u := n.local.sessions[s].user;
    var n' := Apply(n, DeleteUser(s));
    RemoveUserConnectionsBacked(n.local, s);
    Presence.UnsubscribeInverse(n.index, u);
    forall v | v in n'.index.subscribedTo ensures HasSession(n'.local, v) {
      var s' :| s' in n.local.sessions && n.local.sessions[s'].user == v;
      assert s' in n'.local.sessions && n'.local.sessions[s'].user == v;
    }
  }

  lemma StepInv(n: Node, e: Step)
    requires Inv(n) && OneUserPerSocket(n, e)
    ensures Inv(Apply(n, e))
  {
    match e
    case Connect(s, o, u, d) => ConnectInv(n, s, o, u, d);
    case Subscribe(s, target) =>
      if s in n.local.sessions {
        Presence.SubscribeInverse(n.index, n.local.sessions[s].user, target);
        assert HasSession(n.local, n.local.sessions[s].user);
      }
    case Unsubscribe(s) => if s in n.local.sessions { Presence.UnsubscribeInverse(n.index, n.local.sessions[s].user); }
    case Leave(s) => if s in n.local.sessions { LeaveInv(n, s); }
    case DeleteUser(s) => if s in n.local.sessions { DeleteUserInv(n, s); }
  }

  /** In every run with one user per socket there are no ghost observers, every listed socket has a session of
      its user, and the lists stay distinct. */
  lemma {:induction false} RunInv(endpoint: string, es: seq<Step>)
    requires OneUserPerSocketRun(endpoint, es)
    ensures Inv(Run(Start(endpoint), es)) && Run(Start(endpoint), es).endpoint == endpoint
  {
    if es != [] {
      RunInv(endpoint, es[..|es| - 1]);
      StepInv(Run(Start(endpoint), es[..|es| - 1]), es[|es| - 1]);
    }
  }

  /** The node as a cluster of its own. */
  function Alone(n: Node): ClusterSessions.System {
    ClusterSessions.System(SessionRegistry.EMPTY, map[n.endpoint := n.local], {}, {})
  }

  /** After every such run, a delivery on the stand-alone node gives exactly one copy to every non-HTTP connection
      of every destination user, except to the ignored device. */
  lemma ExactlyOnceAlone(endpoint: string, es: seq<Step>, q: Delivery.Request, sent: seq<Delivery.Copy>, u: string,
                         d: string)
    requires OneUserPerSocketRun(endpoint, es) && q.here == endpoint && q.isStandAlone
    requires endpoint in Alone(Run(Start(endpoint), es)).locals && Delivery.Delivered(Alone(Run(Start(endpoint), es)), q, sent)
    ensures Delivery.Reaches(sent, endpoint, u, d) <==>
      && u in q.dest && d in Run(Start(endpoint), es).local.Connected(u) && d != ClusterSessions.HTTP_DEVICE_ID
      && !Delivery.Ignored(Alone(Run(Start(endpoint), es)), q, endpoint, d)
    ensures Delivery.OneCopy(sent, u, d)
  {
    var n := Run(Start(endpoint), es);
    RunInv(endpoint, es);
    Delivery.StandAloneReached(Alone(n), q, sent, u, d);
    forall i, j | 0 <= i < |sent| && 0 <= j < |sent| && Delivery.CopyFor(sent[i], u, d) && Delivery.CopyFor(sent[j], u, d)
      ensures i == j
    {
      assert sent[i] in sent && sent[j] in sent;
      Delivery.AtMostOnce(Alone(n), q, sent, i, j);
    }
  }

  // ---- what each step does to observing and to the tables ----

  function TargetOf(n: Node, v: string): Option<string> {
    if v in n.index.subscribedTo then Some(n.index.subscribedTo[v]) else None
  }

  /** The step is of a socket with a session of user v. */
  predicate By(n: Node, e: Step, v: string) {
    e.s in n.local.sessions && n.local.sessions[e.s].user == v
  }

  /** Whom a user observes after a step: whom the user subscribes to; nobody after the user unsubscribes or is deleted, or
      when the user's socket leaves and no other is listed; and otherwise whom the user observed. */
  lemma StepObserves(n: Node, e: Step, v: string)
    requires Tables(n.local)
    ensures TargetOf(Apply(n, e), v) ==
      if e.Subscribe? && By(n, e, v) then Some(e.target)
      else if (e.Unsubscribe? || e.DeleteUser?) && By(n, e, v) then None
      else if e.Leave? && By(n, e, v) && !ListsAnother(n.local, e.s, v) then None
      else TargetOf(n, v)
  {
    if e.Leave? && e.s in n.local.sessions {
      var u := n.local.sessions[e.s].user;
      RemoveOwnOnly(n.local, e.s, u);
      SomebodyListed(LeaveStep(n, e.s).local, u);
    }
  }

  /** Which connections a user has after a step, and which sockets a session: a connecting socket takes the place of those
      of the same socket and of the same device; a leaving one goes; a deleted user has none left. */
  lemma StepTables(n: Node, e: Step, v: string, c: Connection, t: Socket)
    requires Tables(n.local)
    ensures c in Apply(n, e).local.Connections(v) <==>
      if e.Connect? && v == e.u then c == Connection(e.s, e.d, e.o) || (c in n.local.Connections(v) && c.socket != e.s && c.deviceId != e.d)
      else c in n.local.Connections(v) && !(e.Leave? && By(n, e, v) && c.socket == e.s) && !(e.DeleteUser? && By(n, e, v))
    ensures t in Apply(n, e).local.sessions <==>
      if t == e.s then e.Connect? || (t in n.local.sessions && !e.Leave? && !e.DeleteUser?) else t in n.local.sessions
    ensures t in n.local.sessions && t != e.s ==> Apply(n, e).local.sessions[t] == n.local.sessions[t]
  {
    match e
    case Connect(s, o, u, d) =>
      AddContents(n.local, s, o, u, d);
      assert Apply(n, e).local.devices == Add(n.local, s, o, u, d).devices;
    case Leave(s) =>
      if s in n.local.sessions {
        var u := n.local.sessions[s].user;
        RemoveOwnOnly(n.local, s, u);
        RemoveTables(n.local, s, u, DeviceOf(n.local, s, u));
      }
    case _ =>
  }

  // ---- exactly which steps leave a ghost, with sockets used for any users ----

  /** No other socket has a session of the user of this one. */
  ghost predicate OnlySession(l: Local, s: Socket) {
    s in l.sessions && forall s' :: s' in l.sessions && s' != s ==> l.sessions[s'].user != l.sessions[s].user
  }

  /** The user of the socket's session observes somebody. */
  predicate Observing(n: Node, s: Socket) {
    s in n.local.sessions && n.local.sessions[s].user in n.index.subscribedTo
  }

  /** The user has a connection of another socket listed, with or without a session. */
  ghost predicate ListsAnother(l: Local, s: Socket, u: string) {
    exists c :: c in l.Connections(u) && c.socket != s
  }

  /** A connecting socket does not take the only session from another user who observes somebody; a leaving one is not
      the only session of an observing user whose list still holds another socket. */
  ghost predicate Careful(n: Node, e: Step) {
    match e
    case Connect(s, o, u, d) => !(Observing(n, s) && OnlySession(n.local, s) && n.local.sessions[s].user != u)
    case Leave(s) => !(Observing(n, s) && OnlySession(n.local, s) && ListsAnother(n.local, s, n.local.sessions[s].user))
    case _ => true
  }

  ghost predicate Sound(n: Node) {
    Tables(n.local) && Presence.Inverse(n.index)
  }

  lemma StepSound(n: Node, e: Step)
    requires Sound(n)
    ensures Sound(Apply(n, e))
  {
    match e
    case Connect(s, o, u, d) => AddContents(n.local, s, o, u, d);
    case Subscribe(s, target) =>
      if s in n.local.sessions {
        Presence.SubscribeInverse(n.index, n.local.sessions[s].user, target);
      }
    case Unsubscribe(s) => if s in n.local.sessions { Presence.UnsubscribeInverse(n.index, n.local.sessions[s].user); }
    case Leave(s) =>
      if s in n.local.sessions {
        var u := n.local.sessions[s].user;
        RemoveTables(n.local, s, u, DeviceOf(n.local, s, u));
        Presence.UnsubscribeInverse(n.index, u);
      }
    case DeleteUser(s) => if s in n.local.sessions { Presence.UnsubscribeInverse(n.index, n.local.sessions[s].user); }
  }

  /** A user keeps a session when one socket's session goes or changes hands, unless it was the only one. */
  lemma KeepsSession(l: Local, l': Local, s: Socket, v: string)
    requires HasSession(l, v)
    requires forall s' :: s' in l.sessions && s' != s ==> s' in l'.sessions && l'.sessions[s'].user == l.sessions[s'].user
    requires !(s in l.sessions && l.sessions[s].user == v && OnlySession(l, s))
    ensures HasSession(l', v)
  {
    var s0 :| s0 in l.sessions && l.sessions[s0].user == v;
    if s0 == s {
      var s' :| s' in l.sessions && s' != s && l.sessions[s'].user == v;
      assert l'.sessions[s'].user == v;
    } else {
      assert l'.sessions[s0].user == v;
    }
  }

  lemma ConnectGhostIff(n: Node, s: Socket, o: string, u: string, d: string)
    requires NoGhosts(n)
    ensures NoGhosts(Apply(n, Connect(s, o, u, d))) <==> Careful(n, Connect(s, o, u, d))
  {
    var n' := Apply(n, Connect(s, o, u, d));
    assert n'.local.sessions[s].user == u;
    if Careful(n, Connect(s, o, u, d)) {
      forall v | v in n'.index.subscribedTo ensures HasSession(n'.local, v) {
        if v != u {
          KeepsSession(n.local, n'.local, s, v);
        }
      }
    } else {
      assert !HasSession(n'.local, n.local.sessions[s].user);
    }
  }

  lemma LeaveGhostIff(n: Node, s: Socket)
    requires Sound(n) && NoGhosts(n)
    ensures NoGhosts(Apply(n, Leave(s))) <==> Careful(n, Leave(s))
  {
    if s in n.local.sessions {
      var u := n.local.sessions[s].user;
      var n' := LeaveStep(n, s);
      RemoveOwnOnly(n.local, s, u);
      SomebodyListed(n'.local, u);
      assert n'.local.Connections(u) == [] <==> !ListsAnother(n.local, s, u);
      forall v | v in n'.index.subscribedTo && !(v == u && OnlySession(n.local, s)) ensures HasSession(n'.local, v) {
        KeepsSession(n.local, n'.local, s, v);
      }
      if OnlySession(n.local, s) {
        assert !HasSession(n'.local, u);
      }
    }
  }

  lemma SomebodyListed(l: Local, u: string)
    ensures l.Connections(u) != [] <==> exists c :: c in l.Connections(u)
  {
    if l.Connections(u) != [] {
      assert l.Connections(u)[0] in l.Connections(u);
    }
  }

  lemma DeleteKeepsNoGhosts(n: Node, s: Socket)
    requires NoGhosts(n)
    ensures NoGhosts(Apply(n, DeleteUser(s)))
  {
    if s in n.local.sessions {
      var n' := Apply(n, DeleteUser(s));
      forall v | v in n'.index.subscribedTo ensures HasSession(n'.local, v) {
        KeepsSession(n.local, n'.local, s, v);
      }
    }
  }

  /** From any state without ghosts, whatever users its sockets have been used for: a step leaves no ghost if and only
      if it is careful. */
  lemma StepGhostIff(n: Node, e: Step)
    requires Sound(n) && NoGhosts(n)
    ensures NoGhosts(Apply(n, e)) <==> Careful(n, e)
  {
    match e
    case Connect(s, o, u, d) => ConnectGhostIff(n, s, o, u, d);
    case Subscribe(s, target) => if s in n.local.sessions { assert HasSession(n.local, n.local.sessions[s].user); }
    case Unsubscribe(s) =>
    case Leave(s) => LeaveGhostIff(n, s);
    case DeleteUser(s) => DeleteKeepsNoGhosts(n, s);
  }

  ghost predicate CarefulRun(endpoint: string, es: seq<Step>)
    decreases |es|
  {
    es != [] ==> CarefulRun(endpoint, es[..|es| - 1]) && Careful(Run(Start(endpoint), es[..|es| - 1]), es[|es| - 1])
  }

  ghost predicate NoGhostsThroughout(endpoint: string, es: seq<Step>)
    decreases |es|
  {
    NoGhosts(Run(Start(endpoint), es)) && (es != [] ==> NoGhostsThroughout(endpoint, es[..|es| - 1]))
  }

  /** Over every stand-alone run, sockets used for any users: there is no ghost observer in any state if and only if
      every step is careful when taken. */
  lemma {:induction false} RunGhostIff(endpoint: string, es: seq<Step>)
    ensures NoGhostsThroughout(endpoint, es) <==> CarefulRun(endpoint, es)
    ensures Sound(Run(Start(endpoint), es))
  {
    if es != [] {
      var front, e := es[..|es| - 1], es[|es| - 1];
      RunGhostIff(endpoint, front);
      var n := Run(Start(endpoint), front);
      StepSound(n, e);
      if CarefulRun(endpoint, front) {
        StepGhostIff(n, e);
      }
    }
  }

  /** One user per socket is enough. */
  lemma {:induction false} OneUserIsCareful(endpoint: string, es: seq<Step>)
    requires OneUserPerSocketRun(endpoint, es)
    ensures CarefulRun(endpoint, es)
  {
    if es != [] {
      OneUserIsCareful(endpoint, es[..|es| - 1]);
      RunInv(endpoint, es[..|es| - 1]);
      RunInv(endpoint, es);
      StepGhostIff(Run(Start(endpoint), es[..|es| - 1]), es[|es| - 1]);
    }
  }

  /** The condition is needed: a socket that switches users leaves the first one observing without a session. */
  lemma SwitchingSocketLeavesGhost(endpoint: string, s: Socket, o: string, u: string, v: string, d: string,
                                   target: string)
    requires u != v
    ensures var n := Run(Start(endpoint), [Connect(s, o, u, d), Subscribe(s, target), Connect(s, o, v, d)]);
            u in n.index.subscribedTo && !HasSession(n.local, u)
  {
    var e1, e2, e3 := Connect(s, o, u, d), Subscribe(s, target), Connect(s, o, v, d);
    var start := Start(endpoint);
    assert [e1, e2, e3][..2] == [e1, e2] && [e1, e2][..1] == [e1] && [e1][..0] == [];
    assert Run(start, [e1]) == Apply(start, e1);
    assert Run(start, [e1, e2]) == Apply(Run(start, [e1]), e2);
    assert Run(start, [e1, e2, e3]) == Apply(Run(start, [e1, e2]), e3);
  }

  /** A user with two sockets, the first of which connects as somebody else; then the second leaves. The first, still
      listed, keeps the user from going offline. */
  function StaleSteps(s: Socket, t: Socket, o: string, u: string, v: string, d: string, e: string,
                      target: string): seq<Step> {
    [Connect(s, o, u, d), Connect(t, o, u, e), Subscribe(s, target), Connect(s, o, v, d), Leave(t)]
  }

  lemma StaleState(n: Node, s: Socket, t: Socket, o: string, u: string, v: string, d: string, e: string, target: string)
    requires n.local == NOBODY && s != t && d != e && u != v
    ensures var n' := Apply(Apply(Apply(Apply(n, Connect(s, o, u, d)), Connect(t, o, u, e)), Subscribe(s, target)), Connect(s, o, v, d));
      && n'.local.sessions.Keys == {s, t} && n'.local.sessions[s].user == v && n'.local.sessions[t].user == u
      && n'.local.Connections(u) == [Connection(s, d, o), Connection(t, e, o)] && u in n'.index.subscribedTo
  {
    var n1 := Apply(n, Connect(s, o, u, d));
    assert NOBODY.Connections(u) == [];
    assert n1.local.Connections(u) == [Connection(s, d, o)];
    var n2 := Apply(n1, Connect(t, o, u, e));
    TwoListed(n1.local, s, t, o, u, d, e);
    assert n2.local.Connections(u) == [Connection(s, d, o), Connection(t, e, o)];
    var n3 := Apply(n2, Subscribe(s, target));
    assert n3.local == n2.local;
  }

  lemma TwoListed(l: Local, s: Socket, t: Socket, o: string, u: string, d: string, e: string)
    requires l.Connections(u) == [Connection(s, d, o)] && s != t && d != e
    ensures Add(l, t, o, u, e).Connections(u) == [Connection(s, d, o), Connection(t, e, o)]
  {
    var cs := l.Connections(u);
    assert FindSocket(cs, t) == None && FindDevice(cs, e) == None;
    assert cs[..0] == [];
    assert Except(cs, None, None) == cs;
  }

  lemma StaleListingLeavesGhost(endpoint: string, s: Socket, t: Socket, o: string, u: string, v: string, d: string,
                                e: string, target: string)
    requires s != t && d != e && u != v
    ensures var n := Run(Start(endpoint), StaleSteps(s, t, o, u, v, d, e, target));
            u in n.index.subscribedTo && !HasSession(n.local, u)
  {
    var es := StaleSteps(s, t, o, u, v, d, e, target);
    var start := Start(endpoint);
    var n4 := Apply(Apply(Apply(Apply(start, es[0]), es[1]), es[2]), es[3]);
    RunFour(start, es[0], es[1], es[2], es[3]);
    assert es[..4] == [es[0], es[1], es[2], es[3]];
    assert Run(start, es) == Apply(n4, Leave(t));
    StaleState(start, s, t, o, u, v, d, e, target);
    StaleLeave(n4, s, t, o, u, v, d, e);
  }

  lemma RunFour(n: Node, e1: Step, e2: Step, e3: Step, e4: Step)
    ensures Run(n, [e1, e2, e3, e4]) == Apply(Apply(Apply(Apply(n, e1), e2), e3), e4)
  {
    assert [e1, e2, e3, e4][..3] == [e1, e2, e3] && [e1, e2, e3][..2] == [e1, e2] && [e1, e2][..1] == [e1] && [e1][..0] == [];
    assert Run(n, [e1]) == Apply(n, e1);
    assert Run(n, [e1, e2]) == Apply(Run(n, [e1]), e2);
    assert Run(n, [e1, e2, e3]) == Apply(Run(n, [e1, e2]), e3);
  }

  lemma StaleLeave(n: Node, s: Socket, t: Socket, o: string, u: string, v: string, d: string, e: string)
    requires s != t && d != e && u != v && n.local.sessions.Keys == {s, t}
    requires n.local.sessions[s].user == v && n.local.sessions[t].user == u && u in n.index.subscribedTo
    requires n.local.Connections(u) == [Connection(s, d, o), Connection(t, e, o)]
    ensures u in Apply(n, Leave(t)).index.subscribedTo && !HasSession(Apply(n, Leave(t)).local, u)
  {
    var cs := n.local.Connections(u);
    assert cs[0] in cs && cs[1] in cs;
    var found := FindSocket(cs, t);
    assert found.Some? && found.value.socket == t && found.value == cs[1];
    assert cs[0] in WithoutDevice(cs, Some(e));
  }
}
