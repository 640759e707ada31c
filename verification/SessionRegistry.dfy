/** The shared session registry that `SessionService` keeps in Redis, and what each service call does to it.

    Redis keeps no empty set and no empty hash, so a family of keyed sets is one set of
    (key, member) pairs here:
      sama-node-users:{node}        -> "{org}:{user}:{device}"   nodeUsers
      sama-user-devices:{org}:{user} -> {device}                 userDevices
      sama-user-data:{user}:{device} -> NODE_ENDPOINT field      nodeField
                                     -> MOBILE_INACTIVE field    inactive
    Nothing in Redis makes the three families agree; the calls below do. */
module SessionRegistry {
  import opened Text

  datatype Registry = Registry(
    nodeUsers: set<(string, string)>,
    userDevices: set<(string, string, string)>,
    nodeField: map<(string, string), string>,
    inactive: set<(string, string)>)
  {
    /** `hGetAll(...)[NODE_ENDPOINT]` */
    function NodeOf(u: string, d: string): Option<string> {
      if (u, d) in nodeField then Some(nodeField[(u, d)]) else None
    }

    /** `sMembers(sama-user-devices:o:u)` */
    function Devices(o: string, u: string): (s: set<string>)
      ensures forall d :: d in s <==> (o, u, d) in userDevices
    {
      set t | t in userDevices && t.0 == o && t.1 == u :: t.2
    }

    /** `sMembers(sama-node-users:n)` */
    function Members(n: string): (s: set<string>)
      ensures forall m :: m in s <==> (n, m) in nodeUsers
    {
      set p | p in nodeUsers && p.0 == n :: p.1
    }
  }

  const EMPTY := Registry({}, {}, map[], {})

  /** The member string of a node's set, and how a dead node's cleanup reads it back. */
  function Member(o: string, u: string, d: string): string {
    Join([o, u, d], ':')
  }

  /** `const [organizationId, userId, deviceId] = m.split(":")`; a missing part reads as undefined. */
  function Parse(m: string): (string, string, string) {
    var parts := Split(m, ':');
    (parts[0], if |parts| > 1 then parts[1] else "undefined", if |parts| > 2 then parts[2] else "undefined")
  }

  predicate ColonFree(s: string) {
    Free(s, ':')
  }

  // ---- the member string ----

  lemma MemberText(o: string, u: string, d: string)
    ensures Member(o, u, d) == o + [':'] + (u + [':'] + d)
  {
    var tail := [u, d];
    assert [o, u, d][1..] == tail && tail[1..] == [d];
    assert Join(tail, ':') == u + [':'] + d;
  }

  lemma SplitMember(o: string, u: string, d: string)
    requires ColonFree(o) && ColonFree(u)
    ensures Split(Member(o, u, d), ':') == [o, u] + Split(d, ':')
  {
    MemberText(o, u, d);
    SplitFirst(o, u + [':'] + d, ':');
    SplitFirst(u, d, ':');
    assert [o] + ([u] + Split(d, ':')) == [o, u] + Split(d, ':');
  }

  /** The cleanup reads a member back as the triple it was made from exactly when the device id has
      no colon; the organization and user ids are database ids and never have one. */
  lemma ParseMember(o: string, u: string, d: string)
    requires ColonFree(o) && ColonFree(u)
    ensures Parse(Member(o, u, d)) == (o, u, Split(d, ':')[0])
    ensures Parse(Member(o, u, d)) == (o, u, d) <==> ColonFree(d)
  {
    SplitMember(o, u, d);
    if ColonFree(d) {
      SplitWhole(d, ':');
    }
  }

  /** Members of different triples differ, whatever the device ids hold. */
  lemma MemberInjective(o: string, u: string, d: string, o': string, u': string, d': string)
    requires ColonFree(o) && ColonFree(u) && ColonFree(o') && ColonFree(u')
    requires Member(o, u, d) == Member(o', u', d')
    ensures (o, u, d) == (o', u', d')
  {
    SplitMember(o, u, d);
    SplitMember(o', u', d');
    var p, p' := [o, u] + Split(d, ':'), [o', u'] + Split(d', ':');
    assert p[0] == p'[0] && p[1] == p'[1] && p[2..] == p'[2..];
    assert p[2..] == Split(d, ':') && p'[2..] == Split(d', ':');
    JoinSplit(d, ':');
    JoinSplit(d', ':');
  }

  // ---- what the service calls do ----

  /** services/session/index.js:207-224: one transaction takes the device out of the user's set, its hash and node n's set. */
  function Untrack(r: Registry, n: string, o: string, u: string, d: string): Registry {
    Registry(r.nodeUsers - {(n, Member(o, u, d))}, r.userDevices - {(o, u, d)},
             r.nodeField - {(u, d)}, r.inactive - {(u, d)})
  }

  /** services/session/index.js:227-233: the same, from the node the hash names, or from this node when it names none. */
  function RemoveDevice(r: Registry, here: string, o: string, u: string, d: string): Registry {
    Untrack(r, match r.NodeOf(u, d) case Some(n) => n case None => here, o, u, d)
  }

  /** services/session/index.js:127-132: a listed device is not actual when its hash names no node, or names this node
      while this node holds no such connection. */
  predicate Stale(r: Registry, here: string, connected: set<string>, u: string, d: string) {
    r.NodeOf(u, d) == None || (r.NodeOf(u, d) == Some(here) && d !in connected)
  }

  function StaleDevices(r: Registry, here: string, connected: set<string>, o: string, u: string): set<string> {
    set d | d in r.Devices(o, u) && Stale(r, here, connected, u, d)
  }

  /** Several `Untrack`s of one user's devices on one node. */
  function UntrackAll(r: Registry, n: string, o: string, u: string, ds: set<string>): Registry {
    Registry(r.nodeUsers - (set d | d in ds :: (n, Member(o, u, d))),
             r.userDevices - (set d | d in ds :: (o, u, d)),
             r.nodeField - (set d | d in ds :: (u, d)),
             r.inactive - (set d | d in ds :: (u, d)))
  }

  /** services/session/index.js:104-144 with the filter on: what is left after every stale device is untracked. */
  function Prune(r: Registry, here: string, connected: set<string>, o: string, u: string): Registry {
    UntrackAll(r, here, o, u, StaleDevices(r, here, connected, o, u))
  }

  /** services/session/index.js:226-240; the verdict is that no actual device is left. */
  function RemoveAll(r: Registry, here: string, connected: set<string>, o: string, u: string, d: string): Registry {
    Prune(RemoveDevice(r, here, o, u, d), here, connected, o, u)
  }

  /** services/session/index.js:267-287: the device joins the user's set and this node's set, and its hash names this node. */
  function Track(r: Registry, here: string, o: string, u: string, d: string): Registry {
    Registry(r.nodeUsers + {(here, Member(o, u, d))}, r.userDevices + {(o, u, d)},
             r.nodeField[(u, d) := here], r.inactive)
  }

  /** services/session/index.js:299-305 */
  function Store(r: Registry, here: string, connected: set<string>, o: string, u: string, d: string): Registry {
    Track(if (o, u, d) in r.userDevices then RemoveAll(r, here, connected, o, u, d) else r, here, o, u, d)
  }

  /** services/session/index.js:352-362: only the inactivity field of the hash changes. */
  function MarkInactive(r: Registry, u: string, d: string, isInactive: bool): Registry {
    r.(inactive := if isInactive then r.inactive + {(u, d)} else r.inactive - {(u, d)})
  }

  /** services/session/index.js:402-413: every device the user has anywhere leaves its node's set, its hash and the user's set. */
  function RemoveUser(r: Registry, o: string, u: string): Registry {
    var ds := r.Devices(o, u);
    Registry(r.nodeUsers - (set d | d in ds && (u, d) in r.nodeField :: (r.nodeField[(u, d)], Member(o, u, d))),
             r.userDevices - (set d | d in ds :: (o, u, d)),
             r.nodeField - (set d | d in ds :: (u, d)),
             r.inactive - (set d | d in ds :: (u, d)))
  }

  /** services/session/index.js:313-320: every member of the dead node's set is parsed, its device and hash are removed,
      and the node's set is deleted. */
  function ClearNode(r: Registry, n: string): Registry {
    var gone := set m | m in r.Members(n) :: Parse(m);
    Registry((set p | p in r.nodeUsers && p.0 != n), r.userDevices - gone,
             r.nodeField - (set t | t in gone :: (t.1, t.2)), r.inactive - (set t | t in gone :: (t.1, t.2)))
  }

  // ---- the invariant ----

  predicate IsMember(m: string) {
    |Split(m, ':')| >= 3
  }

  /** Listed devices belong to the user's one organization and have an owner. */
  ghost predicate Listing(r: Registry, orgOf: string -> string) {
    && (forall o, u, d :: (o, u, d) in r.userDevices ==>
          o == orgOf(u) && ColonFree(o) && ColonFree(u) && (u, d) in r.nodeField)
    && (forall u, d :: (u, d) in r.nodeField ==> (orgOf(u), u, d) in r.userDevices)
  }

  /** The triple is in node n's set exactly when the device is listed and its hash names n. */
  ghost predicate Ownership(r: Registry) {
    forall n, o, u, d :: ColonFree(o) && ColonFree(u) ==>
      (Enlisted(r, n, o, u, d) <==> (o, u, d) in r.userDevices && r.NodeOf(u, d) == Some(n))
  }

  predicate Enlisted(r: Registry, n: string, o: string, u: string, d: string) {
    (n, Member(o, u, d)) in r.nodeUsers
  }

  /** A node's set holds nothing but member strings. */
  ghost predicate OnlyMembers(r: Registry) {
    forall p :: p in r.nodeUsers ==> IsMember(p.1)
  }

  ghost predicate Inv(r: Registry, orgOf: string -> string) {
    Listing(r, orgOf) && Ownership(r) && OnlyMembers(r)
  }

  /** A device is in at most one node's set, and in some node's set exactly when it is listed. */
  lemma OneOwner(r: Registry, orgOf: string -> string, o: string, u: string, d: string)
    requires Inv(r, orgOf) && ColonFree(o) && ColonFree(u)
    ensures forall n, m :: Enlisted(r, n, o, u, d) && Enlisted(r, m, o, u, d) ==> n == m
    ensures (o, u, d) in r.userDevices <==> exists n :: Enlisted(r, n, o, u, d)
  {
    if (o, u, d) in r.userDevices {
      assert Enlisted(r, r.nodeField[(u, d)], o, u, d);
    }
  }

  lemma MemberOf(m: string) returns (o: string, u: string, d: string)
    requires IsMember(m)
    ensures ColonFree(o) && ColonFree(u) && m == Member(o, u, d)
  {
    var parts := Split(m, ':');
    o, u, d := parts[0], parts[1], Join(parts[2..], ':');
    JoinSplit(m, ':');
    assert parts[1..][1..] == parts[2..] && [o, u, d][1..] == [u, d] && [u, d][1..] == [d];
    assert Join([u, d], ':') == u + [':'] + d == Join(parts[1..], ':');
  }

  lemma MemberIsMember(o: string, u: string, d: string)
    requires ColonFree(o) && ColonFree(u)
    ensures IsMember(Member(o, u, d))
  {
    SplitMember(o, u, d);
  }

  // ---- what pruning takes and what it leaves ----

  /** A device is actual: it has an owner, and if that is this node, this node is connected to it. */
  predicate Actual(r: Registry, here: string, connected: set<string>, u: string, d: string) {
    r.NodeOf(u, d).Some? && (r.NodeOf(u, d).value == here ==> d in connected)
  }

  /** After pruning, exactly the user's actual devices are listed, with the owners they had: every one of another
      node, and of this node every connected one, and none without an owner. Nobody else's change. */
  lemma PruneExact(r: Registry, here: string, connected: set<string>, o: string, u: string)
    ensures var r' := Prune(r, here, connected, o, u);
      && (forall d :: (o, u, d) in r'.userDevices <==> (o, u, d) in r.userDevices && Actual(r, here, connected, u, d))
      && (forall d :: (o, u, d) in r'.userDevices ==> r'.NodeOf(u, d) == r.NodeOf(u, d))
      && (forall d :: (o, u, d) in r.userDevices && (o, u, d) !in r'.userDevices ==> r'.NodeOf(u, d) == None)
      && (forall t: (string, string, string) :: !(t.0 == o && t.1 == u) ==> (t in r'.userDevices <==> t in r.userDevices))
      && (forall v, e :: v != u ==> r'.NodeOf(v, e) == r.NodeOf(v, e))
  {
  }

  /** After a removal, exactly the user's other actual devices are listed, with the owners they had. */
  lemma RemoveAllExact(r: Registry, here: string, connected: set<string>, o: string, u: string, d: string)
    ensures var r' := RemoveAll(r, here, connected, o, u, d);
      && (forall e :: (o, u, e) in r'.userDevices <==> (o, u, e) in r.userDevices && e != d && Actual(r, here, connected, u, e))
      && (forall e :: (o, u, e) in r'.userDevices ==> r'.NodeOf(u, e) == r.NodeOf(u, e))
      && (forall e :: (o, u, e) in r.userDevices && (o, u, e) !in r'.userDevices ==> r'.NodeOf(u, e) == None)
      && r'.NodeOf(u, d) == None
  {
    var r1 := RemoveDevice(r, here, o, u, d);
    PruneExact(r1, here, connected, o, u);
    forall e | e != d ensures r1.NodeOf(u, e) == r.NodeOf(u, e) {}
  }

  // ---- the inactivity marks ----

  /** Storing a device neither marks it nor unmarks any other; whatever else a store or removal takes from the marks
      belongs to devices it drops. */
  lemma MarksKept(r: Registry, here: string, connected: set<string>, o: string, u: string, d: string, v: string, e: string)
    ensures (v, e) in Track(r, here, o, u, d).inactive <==> (v, e) in r.inactive
    ensures (v, e) in Prune(r, here, connected, o, u).inactive <==>
            (v, e) in r.inactive && !(v == u && (o, u, e) in r.userDevices && !Actual(r, here, connected, u, e))
    ensures (v, e) in RemoveAll(r, here, connected, o, u, d).inactive <==>
            && (v, e) in r.inactive && !(v == u && e == d)
            && !(v == u && (o, u, e) in r.userDevices && !Actual(r, here, connected, u, e))
    ensures (v, e) in RemoveUser(r, o, u).inactive <==> (v, e) in r.inactive && !(v == u && (o, u, e) in r.userDevices)
  {
    var r1 := RemoveDevice(r, here, o, u, d);
    if e != d {
      assert r1.NodeOf(u, e) == r.NodeOf(u, e);
    }
  }

  /** Marking a device changes its mark and no other, and nothing else. */
  lemma MarkExact(r: Registry, u: string, d: string, isInactive: bool, v: string, e: string)
    ensures (v, e) in MarkInactive(r, u, d, isInactive).inactive <==> if (v, e) == (u, d) then isInactive else (v, e) in r.inactive
    ensures MarkInactive(r, u, d, isInactive).NodeOf(v, e) == r.NodeOf(v, e)
    ensures forall o :: (o, v, e) in MarkInactive(r, u, d, isInactive).userDevices <==> (o, v, e) in r.userDevices
  {
  }

  // ---- every call keeps the invariant ----

  lemma UntrackAllInv(r: Registry, n: string, o: string, u: string, ds: set<string>, orgOf: string -> string)
    requires Inv(r, orgOf) && o == orgOf(u) && ColonFree(o) && ColonFree(u)
    requires forall d :: d in ds ==> r.NodeOf(u, d) in {None, Some(n)}
    ensures Inv(UntrackAll(r, n, o, u, ds), orgOf)
  {
    var r' := UntrackAll(r, n, o, u, ds);
    forall n', o', u', d' | ColonFree(o') && ColonFree(u')
      ensures Enlisted(r', n', o', u', d') <==> (o', u', d') in r'.userDevices && r'.NodeOf(u', d') == Some(n')
    {
      assert Enlisted(r, n', o', u', d') <==> (o', u', d') in r.userDevices && r.NodeOf(u', d') == Some(n');
      forall d | d in ds && Member(o, u, d) == Member(o', u', d') {
        MemberInjective(o, u, d, o', u', d');
      }
    }
  }

  lemma TrackInv(r: Registry, here: string, o: string, u: string, d: string, orgOf: string -> string)
    requires Inv(r, orgOf) && o == orgOf(u) && ColonFree(o) && ColonFree(u)
    requires r.NodeOf(u, d) in {None, Some(here)}
    ensures Inv(Track(r, here, o, u, d), orgOf)
  {
    var r' := Track(r, here, o, u, d);
    MemberIsMember(o, u, d);
    forall n', o', u', d' | ColonFree(o') && ColonFree(u')
      ensures Enlisted(r', n', o', u', d') <==> (o', u', d') in r'.userDevices && r'.NodeOf(u', d') == Some(n')
    {
      assert Enlisted(r, n', o', u', d') <==> (o', u', d') in r.userDevices && r.NodeOf(u', d') == Some(n');
      if Member(o, u, d) == Member(o', u', d') {
        MemberInjective(o, u, d, o', u', d');
      }
    }
  }

  lemma PruneInv(r: Registry, here: string, connected: set<string>, o: string, u: string, orgOf: string -> string)
    requires Inv(r, orgOf) && o == orgOf(u) && ColonFree(o) && ColonFree(u)
    ensures Inv(Prune(r, here, connected, o, u), orgOf)
  {
    UntrackAllInv(r, here, o, u, StaleDevices(r, here, connected, o, u), orgOf);
  }

  lemma RemoveAllInv(r: Registry, here: string, connected: set<string>, o: string, u: string, d: string,
                     orgOf: string -> string)
    requires Inv(r, orgOf) && o == orgOf(u) && ColonFree(o) && ColonFree(u)
    ensures Inv(RemoveAll(r, here, connected, o, u, d), orgOf)
  {
    var n := match r.NodeOf(u, d) case Some(n) => n case None => here;
    assert Untrack(r, n, o, u, d) == UntrackAll(r, n, o, u, {d});
    UntrackAllInv(r, n, o, u, {d}, orgOf);
    PruneInv(RemoveDevice(r, here, o, u, d), here, connected, o, u, orgOf);
  }

  lemma StoreInv(r: Registry, here: string, connected: set<string>, o: string, u: string, d: string,
                 orgOf: string -> string)
    requires Inv(r, orgOf) && o == orgOf(u) && ColonFree(o) && ColonFree(u)
    ensures Inv(Store(r, here, connected, o, u, d), orgOf)
  {
    if (o, u, d) in r.userDevices {
      RemoveAllInv(r, here, connected, o, u, d, orgOf);
      TrackInv(RemoveAll(r, here, connected, o, u, d), here, o, u, d, orgOf);
    } else {
      TrackInv(r, here, o, u, d, orgOf);
    }
  }

  lemma RemoveUserInv(r: Registry, o: string, u: string, orgOf: string -> string)
    requires Inv(r, orgOf) && o == orgOf(u)
    ensures Inv(RemoveUser(r, o, u), orgOf)
  {
    var r' := RemoveUser(r, o, u);
    forall n', o', u', d' | ColonFree(o') && ColonFree(u')
      ensures Enlisted(r', n', o', u', d') <==> (o', u', d') in r'.userDevices && r'.NodeOf(u', d') == Some(n')
    {
      assert Enlisted(r, n', o', u', d') <==> (o', u', d') in r.userDevices && r.NodeOf(u', d') == Some(n');
      forall d | d in r.Devices(o, u) && Member(o, u, d) == Member(o', u', d') {
        MemberInjective(o, u, d, o', u', d');
      }
    }
  }

  /** No device that node n owns has a colon in its id. */
  ghost predicate ColonFreeOn(r: Registry, n: string) {
    forall u, d :: r.NodeOf(u, d) == Some(n) ==> ColonFree(d)
  }

  /** Clearing a node whose device ids are colon-free removes exactly the devices that node owns. */
  lemma ClearNodeExact(r: Registry, n: string, orgOf: string -> string)
    requires Inv(r, orgOf) && ColonFreeOn(r, n)
    ensures var r' := ClearNode(r, n);
      && Inv(r', orgOf)
      && (forall o, u, d :: (o, u, d) in r'.userDevices <==> (o, u, d) in r.userDevices && r.NodeOf(u, d) != Some(n))
      && (forall u, d :: r'.NodeOf(u, d) == if r.NodeOf(u, d) == Some(n) then None else r.NodeOf(u, d))
  {
    var gone := set m | m in r.Members(n) :: Parse(m);
    forall o, u, d ensures (o, u, d) in gone <==> (o, u, d) in r.userDevices && r.NodeOf(u, d) == Some(n) {
      if (o, u, d) in r.userDevices && r.NodeOf(u, d) == Some(n) {
        assert Enlisted(r, n, o, u, d);
        assert Member(o, u, d) in r.Members(n);
        ParseMember(o, u, d);
      }
      if (o, u, d) in gone {
        var m :| m in r.Members(n) && Parse(m) == (o, u, d);
        var o', u', d' := MemberOf(m);
        assert Enlisted(r, n, o', u', d');
        ParseMember(o', u', d');
      }
    }
    var r' := ClearNode(r, n);
    forall n', o', u', d' | ColonFree(o') && ColonFree(u')
      ensures Enlisted(r', n', o', u', d') <==> (o', u', d') in r'.userDevices && r'.NodeOf(u', d') == Some(n')
    {
      assert Enlisted(r, n', o', u', d') <==> (o', u', d') in r.userDevices && r.NodeOf(u', d') == Some(n');
    }
  }

  /** What clearing node n takes whatever the device ids: exactly the entries of users with a device on n whose
      id, cut at its first colon, is the entry's device. An entry of another node can be among them. */
  lemma ClearNodeTakes(r: Registry, n: string, orgOf: string -> string, o: string, u: string, e: string)
    requires Inv(r, orgOf)
    ensures (o, u, e) in ClearNode(r, n).userDevices <==> (o, u, e) in r.userDevices && !CutOnNode(r, n, u, e)
    ensures (u, e) in ClearNode(r, n).inactive <==> (u, e) in r.inactive && !CutOnNode(r, n, u, e)
    ensures ClearNode(r, n).NodeOf(u, e) == if CutOnNode(r, n, u, e) then None else r.NodeOf(u, e)
    ensures ReadsAs(r, n, u, e) <==> CutOnNode(r, n, u, e)
  {
    var gone := set m | m in r.Members(n) :: Parse(m);
    if CutOnNode(r, n, u, e) {
      var d :| r.NodeOf(u, d) == Some(n) && e == Split(d, ':')[0];
      assert (u, d) in r.nodeField && (orgOf(u), u, d) in r.userDevices;
      assert Enlisted(r, n, orgOf(u), u, d) && Member(orgOf(u), u, d) in r.Members(n);
      ParseMember(orgOf(u), u, d);
      assert (orgOf(u), u, e) in gone;
    }
    forall t | t in gone && t.1 == u && t.2 == e ensures t.0 == orgOf(u) && CutOnNode(r, n, u, e) {
      var m :| m in r.Members(n) && Parse(m) == t;
      var o', u', d' := MemberOf(m);
      assert Enlisted(r, n, o', u', d');
      ParseMember(o', u', d');
    }
  }

  /** Some member of node n's set reads as the user's device e. */
  ghost predicate ReadsAs(r: Registry, n: string, u: string, e: string) {
    exists m :: m in r.Members(n) && Parse(m).1 == u && Parse(m).2 == e
  }

  lemma ClearNodeReads(r: Registry, n: string, m: string, u: string, e: string)
    ensures ClearNode(r, n).NodeOf(u, e) == if ReadsAs(r, n, u, e) then None else r.NodeOf(u, e)
    ensures ReadsAs(ClearNode(r, n), m, u, e) <==> m != n && ReadsAs(r, m, u, e)
  {
    assert ReadsAs(r, n, u, e) <==> (u, e) in set t | t in (set x | x in r.Members(n) :: Parse(x)) :: (t.1, t.2);
    assert ClearNode(r, n).Members(m) == if m == n then {} else r.Members(m);
  }

  /** The user has a device on node n whose id, cut at its first colon, is e. */
  ghost predicate CutOnNode(r: Registry, n: string, u: string, e: string) {
    exists d :: r.NodeOf(u, d) == Some(n) && e == Split(d, ':')[0]
  }

  /** The exact condition: clearing a node keeps the registry consistent if and only if none of the
      devices it owns has a colon in its id. Otherwise such a device stays listed, owned by a node
      whose set is gone. */
  lemma ClearNodeConsistentIff(r: Registry, n: string, orgOf: string -> string)
    requires Inv(r, orgOf)
    ensures Inv(ClearNode(r, n), orgOf) <==> ColonFreeOn(r, n)
  {
    if ColonFreeOn(r, n) {
      ClearNodeExact(r, n, orgOf);
    } else {
      var u, d :| r.NodeOf(u, d) == Some(n) && !ColonFree(d);
      var r', o := ClearNode(r, n), orgOf(u);
      assert (u, d) in r.nodeField && (o, u, d) in r.userDevices;
      forall m | m in r.Members(n) ensures Parse(m).2 != d {}
      assert (o, u, d) in r'.userDevices && r'.NodeOf(u, d) == Some(n);
      assert !Enlisted(r', n, o, u, d);
    }
  }

  // ---- which users a cleanup reports offline ----

  /** services/session/index.js:315-318 over the listed devices: each member's device is removed, and its user is reported
      when nothing of that user is left. */
  function Reported(listed: set<(string, string, string)>,
                    ts: seq<(string, string, string)>): seq<(string, string, string)> {
    if ts == [] then []
    else
      var last := ts[|ts| - 1];
      var left := listed - SetOf(ts);
      Reported(listed, ts[..|ts| - 1]) + if AnyOf(left, last.0, last.1) then [] else [last]
  }

  predicate AnyOf(listed: set<(string, string, string)>, o: string, u: string) {
    exists t :: t in listed && t.0 == o && t.1 == u
  }

  /** How often a user is named. */
  function TimesReported(ts: seq<(string, string, string)>, o: string, u: string): nat {
    if ts == [] then 0
    else
      var last := ts[|ts| - 1];
      TimesReported(ts[..|ts| - 1], o, u) + if last.0 == o && last.1 == u then 1 else 0
  }

  /** In whatever order Redis lists the members, a user is reported once if the cleanup takes the
      user's last device, and never otherwise. */
  lemma {:induction false} ReportedOnce(listed: set<(string, string, string)>, ts: seq<(string, string, string)>,
                                        o: string, u: string)
    requires Distinct(ts) && forall t :: t in ts ==> t in listed
    ensures TimesReported(Reported(listed, ts), o, u) ==
            if AnyOf(SetOf(ts), o, u) && !AnyOf(listed - SetOf(ts), o, u) then 1 else 0
  {
    if ts != [] {
      var front, last := ts[..|ts| - 1], ts[|ts| - 1];
      ReportedOnce(listed, front, o, u);
      var named := Reported(listed, front);
      assert (named + [last])[..|named|] == named && named + [] == named;
      assert forall t :: t in ts <==> t == last || t in front;
      assert last !in front;
      if last.0 == o && last.1 == u {
        assert last in listed - SetOf(front);
        assert last in SetOf(ts);
      } else {
        assert AnyOf(SetOf(ts), o, u) == AnyOf(SetOf(front), o, u);
        assert AnyOf(listed - SetOf(ts), o, u) == AnyOf(listed - SetOf(front), o, u);
      }
    }
  }
}
