/** When the shared registry and the nodes' own tables agree, and which steps make them drift apart. */
module ClusterAgreement {
  import opened Text
  import opened SessionRegistry
  import opened LocalSessions
  import opened ClusterSessions

  /** No login has still to store the device on the node, or to drop it from there. */
  predicate Settled(sys: System, n: string, u: string, d: string) {
    Place(n, u, d) !in sys.arriving && Place(n, u, d) !in sys.leaving
  }

  /** The registry names a live node for a settled device exactly when the node holds a connection of it. HTTP
      pseudo-connections are never registered. */
  ghost predicate AgreeAt(sys: System, n: string, u: string, d: string) {
    n in sys.locals && d != HTTP_DEVICE_ID && Settled(sys, n, u, d) ==>
      (d in sys.locals[n].Connected(u) <==> sys.registry.NodeOf(u, d) == Some(n))
  }

  ghost predicate Agree(sys: System) {
    forall n, u, d :: AgreeAt(sys, n, u, d)
  }

  /** Another live node owns the device, and no login there has still to do with it. */
  predicate OwnedElsewhere(sys: System, n: string, u: string, d: string) {
    match sys.registry.NodeOf(u, d)
    case Some(m) => m != n && m in sys.locals && Settled(sys, m, u, d)
    case None => false
  }

  /** Steps that do not make registry and tables drift apart: a store of a device the node holds and no other
      node owns; a drop of a device the node does not hold any more and no other node owns; a close of a socket
      whose device no other node owns; the deletion of a user without devices on other nodes; the cleanup of a
      node that takes no entry a live node owns; and a restart whose cleanup does not, and leaves nothing behind. */
  ghost predicate Harmless(sys: System, e: Step) {
    match e
    case Storing(n, s, u, d) =>
      n in sys.locals && d != HTTP_DEVICE_ID ==>
        !OwnedElsewhere(sys, n, u, d) && (d in sys.locals[n].Connected(u) || Place(n, u, d) in sys.leaving)
    case Dropping(n, u, d) =>
      n in sys.locals && d != HTTP_DEVICE_ID ==>
        !OwnedElsewhere(sys, n, u, d) && (d !in sys.locals[n].Connected(u) || Place(n, u, d) in sys.arriving)
    case Close(n, s) =>
      n in sys.locals && s in sys.locals[n].sessions ==>
        var u := sys.locals[n].sessions[s].user;
        forall d :: DeviceOf(sys.locals[n], s, u) == Some(d) && d != HTTP_DEVICE_ID ==> !OwnedElsewhere(sys, n, u, d)
    case DeleteUser(n, s) =>
      n in sys.locals && s in sys.locals[n].sessions ==> NoneElsewhere(sys, n, sys.locals[n].sessions[s].user)
    case CleanNode(n) => TakesNothing(sys, n)
    case Boot(n) => n !in sys.locals ==> TakesNothing(sys, n) && LeavesNothing(sys, n)
    case _ => true
  }

  /** The cleanup of node n takes no settled entry of a live node: no device on n, its id cut at its first colon, is
      a device of the same user on a live node. */
  ghost predicate TakesNothing(sys: System, n: string) {
    forall m, u, d :: m in sys.locals && d != HTTP_DEVICE_ID && sys.registry.NodeOf(u, d) == Some(m) ==>
      CutOnNode(sys.registry, n, u, d) ==> !Settled(sys, m, u, d)
  }

  /** The cleanup of node n leaves none of its entries behind. */
  ghost predicate LeavesNothing(sys: System, n: string) {
    forall u, d :: d != HTTP_DEVICE_ID && sys.registry.NodeOf(u, d) == Some(n) && !ColonFree(d) ==> !Settled(sys, n, u, d)
  }

  ghost predicate NoneElsewhere(sys: System, n: string, u: string) {
    forall m, d :: m in sys.locals && m != n && d != HTTP_DEVICE_ID && Settled(sys, m, u, d) ==> d !in sys.locals[m].Connected(u)
  }

  // ---- one step, seen from one node and one device ----

  lemma AddAgreeAt(sys: System, n: string, s: Socket, o: string, u: string, d: string, m: string, v: string, x: string)
    requires n in sys.locals && Tables(sys.locals[n]) && AgreeAt(sys, m, v, x)
    ensures AgreeAt(AddStep(sys, n, s, o, u, d), m, v, x)
  {
    AddConnected(sys.locals[n], s, o, u, d, v, x);
  }

  lemma StoreAgreeAt(sys: System, n: string, s: Socket, o: string, u: string, d: string, m: string, v: string,
                     x: string)
    requires n in sys.locals && AgreeAt(sys, m, v, x) && AgreeAt(sys, n, v, x)
    requires v == u && x == d ==> Harmless(sys, Storing(n, s, u, d))
    ensures AgreeAt(StoreStep(sys, n, s, o, u, d), m, v, x)
  {
    StoreOwner(sys.registry, n, sys.locals[n].Connected(u), o, u, d, v, x);
  }

  lemma DropAgreeAt(sys: System, n: string, o: string, u: string, d: string, m: string, v: string, x: string)
    requires n in sys.locals && AgreeAt(sys, m, v, x) && AgreeAt(sys, n, v, x)
    requires v == u && x == d ==> Harmless(sys, Dropping(n, u, d))
    ensures AgreeAt(DropStep(sys, n, o, u, d), m, v, x)
  {
    RemoveAllOwner(sys.registry, n, sys.locals[n].Connected(u), o, u, d, v, x);
  }

  lemma CloseAgreeAt(sys: System, n: string, s: Socket, m: string, v: string, x: string)
    requires n in sys.locals && s in sys.locals[n].sessions && Tables(sys.locals[n]) && Harmless(sys, Close(n, s))
    requires forall u, c :: c in sys.locals[n].Connections(u) ==> c.deviceId != ""
    requires AgreeAt(sys, m, v, x) && AgreeAt(sys, n, v, x)
    ensures AgreeAt(CloseStep(sys, n, s), m, v, x)
  {
    var l := sys.locals[n];
    var u := l.sessions[s].user;
    CloseOwner(sys, n, s, v, x);
    CloseConnected(l, s, u, v, x);
  }

  lemma DeleteAgreeAt(sys: System, n: string, s: Socket, orgOf: string -> string, m: string, v: string, x: string)
    requires Listing(sys.registry, orgOf) && n in sys.locals && s in sys.locals[n].sessions
    requires Known(sys.locals[n].sessions[s], orgOf) && NoneElsewhere(sys, n, sys.locals[n].sessions[s].user)
    requires AgreeAt(sys, m, v, x)
    ensures AgreeAt(DeleteStep(sys, n, s), m, v, x)
  {
    var Session(o, u, _, _, _) := sys.locals[n].sessions[s];
    RemoveUserOwner(sys.registry, o, u, v, x, orgOf);
  }

  /** A cleanup that takes nothing from live nodes leaves each of them the entries it owned. */
  lemma CleanKeeps(sys: System, n: string, orgOf: string -> string, m: string, v: string, x: string)
    requires Inv(sys.registry, orgOf) && TakesNothing(sys, n)
    requires m in sys.locals && x != HTTP_DEVICE_ID && Settled(sys, m, v, x)
    ensures ClearNode(sys.registry, n).NodeOf(v, x) == Some(m) <==> sys.registry.NodeOf(v, x) == Some(m)
  {
    ClearNodeTakes(sys.registry, n, orgOf, orgOf(v), v, x);
  }

  lemma CleanAgreeAt(sys: System, n: string, orgOf: string -> string, m: string, v: string, x: string)
    requires Inv(sys.registry, orgOf) && TakesNothing(sys, n) && AgreeAt(sys, m, v, x)
    ensures AgreeAt(Apply(sys, CleanNode(n), orgOf), m, v, x)
  {
    if m in sys.locals && x != HTTP_DEVICE_ID && Settled(sys, m, v, x) {
      CleanKeeps(sys, n, orgOf, m, v, x);
    }
  }

  /** Of its own entries, the cleanup of a node takes those without a colon in the device id. */
  lemma OwnCut(r: Registry, n: string, u: string, d: string)
    requires r.NodeOf(u, d) == Some(n)
    ensures CutOnNode(r, n, u, d) <==> ColonFree(d)
  {
    if ColonFree(d) {
      SplitWhole(d, ':');
    }
  }

  lemma BootOwn(sys: System, n: string, orgOf: string -> string, v: string, x: string)
    requires Inv(sys.registry, orgOf) && LeavesNothing(sys, n) && x != HTTP_DEVICE_ID && Settled(sys, n, v, x)
    ensures ClearNode(sys.registry, n).NodeOf(v, x) != Some(n)
  {
    ClearNodeTakes(sys.registry, n, orgOf, orgOf(v), v, x);
    if sys.registry.NodeOf(v, x) == Some(n) {
      OwnCut(sys.registry, n, v, x);
    }
  }

  lemma BootAgreeAt(sys: System, n: string, orgOf: string -> string, m: string, v: string, x: string)
    requires Inv(sys.registry, orgOf) && n !in sys.locals && Harmless(sys, Boot(n)) && AgreeAt(sys, m, v, x)
    ensures AgreeAt(Apply(sys, Boot(n), orgOf), m, v, x)
  {
    if x != HTTP_DEVICE_ID && Settled(sys, m, v, x) {
      if m == n {
        BootOwn(sys, n, orgOf, v, x);
        assert NOBODY.Connections(v) == [];
      } else if m in sys.locals {
        CleanKeeps(sys, n, orgOf, m, v, x);
      }
    }
  }

  lemma ListAgreeAt(sys: System, n: string, u: string, orgOf: string -> string, m: string, v: string, x: string)
    requires AgreeAt(sys, m, v, x)
    ensures AgreeAt(Apply(sys, ListActual(n, u), orgOf), m, v, x)
  {
    if n in sys.locals {
      PruneOwner(sys.registry, n, sys.locals[n].Connected(u), orgOf(u), u, v, x);
    }
  }

  lemma HarmlessAgreeAt(sys: System, e: Step, orgOf: string -> string, m: string, v: string, x: string)
    requires Agree(sys) && SystemInv(sys, orgOf) && Harmless(sys, e)
    ensures AgreeAt(Apply(sys, e, orgOf), m, v, x)
  {
    assert AgreeAt(sys, m, v, x) && AgreeAt(sys, e.n, v, x);
    assert e.n in sys.locals ==> TablesOk(sys.locals[e.n], orgOf);
    match e
    case Adding(n, s, u, d) => if n in sys.locals { AddAgreeAt(sys, n, s, orgOf(u), u, d, m, v, x); }
    case Storing(n, s, u, d) => if n in sys.locals { StoreAgreeAt(sys, n, s, orgOf(u), u, d, m, v, x); }
    case Dropping(n, u, d) => if n in sys.locals { DropAgreeAt(sys, n, orgOf(u), u, d, m, v, x); }
    case Close(n, s) => if n in sys.locals && s in sys.locals[n].sessions { CloseAgreeAt(sys, n, s, m, v, x); }
    case DeleteUser(n, s) => if n in sys.locals && s in sys.locals[n].sessions { DeleteAgreeAt(sys, n, s, orgOf, m, v, x); }
    case Inactive(n, s, isInactive) =>
    case ListActual(n, u) => ListAgreeAt(sys, n, u, orgOf, m, v, x);
    case CleanNode(n) => CleanAgreeAt(sys, n, orgOf, m, v, x);
    case Crash(n) =>
    case Boot(n) => if n !in sys.locals { BootAgreeAt(sys, n, orgOf, m, v, x); }
  }

  // ---- a harmful step breaks agreement somewhere ----

  lemma StoreHarms(sys: System, n: string, s: Socket, o: string, u: string, d: string)
    requires Agree(sys) && n in sys.locals && !Harmless(sys, Storing(n, s, u, d))
    ensures !Agree(StoreStep(sys, n, s, o, u, d))
  {
    var sys' := StoreStep(sys, n, s, o, u, d);
    StoreOwner(sys.registry, n, sys.locals[n].Connected(u), o, u, d, u, d);
    var m := if OwnedElsewhere(sys, n, u, d) then sys.registry.NodeOf(u, d).value else n;
    assert AgreeAt(sys, m, u, d);
    assert !AgreeAt(sys', m, u, d);
  }

  lemma DropHarms(sys: System, n: string, o: string, u: string, d: string)
    requires Agree(sys) && n in sys.locals && !Harmless(sys, Dropping(n, u, d))
    ensures !Agree(DropStep(sys, n, o, u, d))
  {
    var sys' := DropStep(sys, n, o, u, d);
    RemoveAllOwner(sys.registry, n, sys.locals[n].Connected(u), o, u, d, u, d);
    var m := if OwnedElsewhere(sys, n, u, d) then sys.registry.NodeOf(u, d).value else n;
    assert AgreeAt(sys, m, u, d);
    assert !AgreeAt(sys', m, u, d);
  }

  lemma CloseHarms(sys: System, n: string, s: Socket)
    requires Agree(sys) && n in sys.locals && s in sys.locals[n].sessions && !Harmless(sys, Close(n, s))
    requires forall u, c :: c in sys.locals[n].Connections(u) ==> c.deviceId != ""
    ensures !Agree(CloseStep(sys, n, s))
  {
    var u := sys.locals[n].sessions[s].user;
    var d :| DeviceOf(sys.locals[n], s, u) == Some(d) && d != HTTP_DEVICE_ID && OwnedElsewhere(sys, n, u, d);
    var m := sys.registry.NodeOf(u, d).value;
    CloseOwner(sys, n, s, u, d);
    assert AgreeAt(sys, m, u, d);
    assert !AgreeAt(CloseStep(sys, n, s), m, u, d);
  }

  lemma DeleteHarms(sys: System, n: string, s: Socket, orgOf: string -> string)
    requires Agree(sys) && Listing(sys.registry, orgOf) && n in sys.locals && s in sys.locals[n].sessions
    requires Known(sys.locals[n].sessions[s], orgOf) && !Harmless(sys, DeleteUser(n, s))
    ensures !Agree(DeleteStep(sys, n, s))
  {
    var Session(o, u, _, _, _) := sys.locals[n].sessions[s];
    var m, d :| m in sys.locals && m != n && d != HTTP_DEVICE_ID && Settled(sys, m, u, d) && d in sys.locals[m].Connected(u);
    RemoveUserOwner(sys.registry, o, u, u, d, orgOf);
    assert !AgreeAt(DeleteStep(sys, n, s), m, u, d);
  }

  lemma CleanHarms(sys: System, n: string, orgOf: string -> string)
    requires Agree(sys) && Inv(sys.registry, orgOf) && !TakesNothing(sys, n)
    ensures !Agree(Apply(sys, CleanNode(n), orgOf))
    ensures n !in sys.locals ==> !Agree(Apply(sys, Boot(n), orgOf))
  {
    var m, u, d :| m in sys.locals && d != HTTP_DEVICE_ID && sys.registry.NodeOf(u, d) == Some(m)
                   && CutOnNode(sys.registry, n, u, d) && Settled(sys, m, u, d);
    assert AgreeAt(sys, m, u, d);
    ClearNodeTakes(sys.registry, n, orgOf, orgOf(u), u, d);
    assert !AgreeAt(Apply(sys, CleanNode(n), orgOf), m, u, d);
    assert n !in sys.locals ==> !AgreeAt(Apply(sys, Boot(n), orgOf), m, u, d);
  }

  lemma BootHarms(sys: System, n: string, orgOf: string -> string)
    requires Agree(sys) && Inv(sys.registry, orgOf) && n !in sys.locals && !Harmless(sys, Boot(n))
    ensures !Agree(Apply(sys, Boot(n), orgOf))
  {
    if TakesNothing(sys, n) {
      var u, d :| d != HTTP_DEVICE_ID && sys.registry.NodeOf(u, d) == Some(n) && !ColonFree(d) && Settled(sys, n, u, d);
      OwnCut(sys.registry, n, u, d);
      ClearNodeTakes(sys.registry, n, orgOf, orgOf(u), u, d);
      assert NOBODY.Connections(u) == [];
      assert !AgreeAt(Apply(sys, Boot(n), orgOf), n, u, d);
    } else {
      CleanHarms(sys, n, orgOf);
    }
  }

  /** From an agreeing state, a step leaves registry and tables in agreement if and only if it is harmless. */
  lemma AgreeIff(sys: System, e: Step, orgOf: string -> string)
    requires Agree(sys) && SystemInv(sys, orgOf) && Legal(e, orgOf)
    ensures Agree(Apply(sys, e, orgOf)) <==> Harmless(sys, e)
  {
    if Harmless(sys, e) {
      forall m, v, x ensures AgreeAt(Apply(sys, e, orgOf), m, v, x) {
        HarmlessAgreeAt(sys, e, orgOf, m, v, x);
      }
    } else {
      assert e.n in sys.locals ==> TablesOk(sys.locals[e.n], orgOf);
      match e
      case Storing(n, s, u, d) => StoreHarms(sys, n, s, orgOf(u), u, d);
      case Dropping(n, u, d) => DropHarms(sys, n, orgOf(u), u, d);
      case Close(n, s) => CloseHarms(sys, n, s);
      case DeleteUser(n, s) => DeleteHarms(sys, n, s, orgOf);
      case CleanNode(n) => CleanHarms(sys, n, orgOf);
      case Boot(n) => BootHarms(sys, n, orgOf);
    }
  }

  // ---- runs ----

  ghost predicate HarmlessRun(sys: System, es: seq<Step>, orgOf: string -> string)
    decreases |es|
  {
    es != [] ==> Harmless(sys, es[0]) && HarmlessRun(Apply(sys, es[0], orgOf), es[1..], orgOf)
  }

  /** Registry and tables agree in every state the run passes through. */
  ghost predicate AgreeThroughout(sys: System, es: seq<Step>, orgOf: string -> string)
    decreases |es|
  {
    Agree(sys) && (es != [] ==> AgreeThroughout(Apply(sys, es[0], orgOf), es[1..], orgOf))
  }

  /** Over whole runs of interleaved calls whose cleanups meet only colon-free device ids: registry and tables agree
      all the way if and only if every step is harmless when taken. */
  lemma {:induction false} RunAgreesIff(sys: System, es: seq<Step>, orgOf: string -> string)
    requires Agree(sys) && SystemInv(sys, orgOf) && forall e :: e in es ==> Legal(e, orgOf)
    requires ParsesThroughout(sys, es, orgOf)
    ensures AgreeThroughout(sys, es, orgOf) <==> HarmlessRun(sys, es, orgOf)
    ensures HarmlessRun(sys, es, orgOf) ==> Agree(Run(sys, es, orgOf)) && SystemInv(Run(sys, es, orgOf), orgOf)
    decreases |es|
  {
    if es != [] {
      AgreeIff(sys, es[0], orgOf);
      StepInvIff(sys, es[0], orgOf);
      if Harmless(sys, es[0]) {
        RunAgreesIff(Apply(sys, es[0], orgOf), es[1..], orgOf);
      }
    }
  }

  lemma StartAgrees(orgOf: string -> string)
    ensures Agree(START) && SystemInv(START, orgOf)
  {
    StartInv(orgOf);
    forall n, u, d ensures AgreeAt(START, n, u, d) {}
  }

  /** An uninterrupted login on a node without unfinished logins of the user's devices is harmless if and only if
      no other node owns the device and the same socket did not hold it already (or the device id is the reserved
      one, which is never delivered to). */
  lemma LoginHarmlessIff(sys: System, n: string, s: Socket, u: string, d: string, orgOf: string -> string)
    requires Agree(sys) && SystemInv(sys, orgOf) && Legal(Storing(n, s, u, d), orgOf) && n in sys.locals
    requires forall x :: Settled(sys, n, u, x)
    ensures HarmlessRun(sys, LoginSteps(sys.locals[n], n, s, u, d), orgOf) <==>
            d == HTTP_DEVICE_ID || (!OwnedElsewhere(sys, n, u, d) && DeviceOf(sys.locals[n], s, u) != Some(d))
  {
    var l, o := sys.locals[n], orgOf(u);
    assert TablesOk(l, orgOf);
    var before := DeviceOf(l, s, u);
    StoreAfterAdd(sys, n, s, o, u, d);
    if before.Some? {
      HarmlessThree(sys, Adding(n, s, u, d), Storing(n, s, u, d), [Dropping(n, u, before.value)], orgOf);
      assert AgreeAt(sys, n, u, before.value);
      DropAfterLogin(sys, n, s, o, u, d, before.value);
    } else {
      HarmlessThree(sys, Adding(n, s, u, d), Storing(n, s, u, d), [], orgOf);
    }
  }

  lemma HarmlessThree(sys: System, e1: Step, e2: Step, e3: seq<Step>, orgOf: string -> string)
    requires |e3| <= 1
    ensures HarmlessRun(sys, [e1, e2] + e3, orgOf) <==>
      && Harmless(sys, e1) && Harmless(Apply(sys, e1, orgOf), e2)
      && (e3 != [] ==> Harmless(Apply(Apply(sys, e1, orgOf), e2, orgOf), e3[0]))
  {
    var es := [e1, e2] + e3;
    assert es[1..] == [e2] + e3 && es[1..][1..] == e3;
    var sys2 := Apply(Apply(sys, e1, orgOf), e2, orgOf);
    assert HarmlessRun(sys2, e3, orgOf) <==> (e3 != [] ==> Harmless(sys2, e3[0]));
  }

  lemma StoreAfterAdd(sys: System, n: string, s: Socket, o: string, u: string, d: string)
    requires n in sys.locals && Tables(sys.locals[n])
    ensures Harmless(AddStep(sys, n, s, o, u, d), Storing(n, s, u, d)) <==> d == HTTP_DEVICE_ID || !OwnedElsewhere(sys, n, u, d)
  {
    AddConnected(sys.locals[n], s, o, u, d, u, d);
  }

  lemma DropAfterLogin(sys: System, n: string, s: Socket, o: string, u: string, d: string, d0: string)
    requires Agree(sys) && n in sys.locals && Tables(sys.locals[n])
    requires Settled(sys, n, u, d) && Settled(sys, n, u, d0) && DeviceOf(sys.locals[n], s, u) == Some(d0)
    ensures Harmless(StoreStep(AddStep(sys, n, s, o, u, d), n, s, o, u, d), Dropping(n, u, d0)) <==> d0 != d || d0 == HTTP_DEVICE_ID
  {
    if d0 != HTTP_DEVICE_ID {
      OwnerAfterLogin(sys, n, s, o, u, d, d0);
      HeldAfterLogin(sys, n, s, o, u, d, d0);
    }
  }

  /** The device a socket held before is registered here, or nowhere, after its next login. */
  lemma OwnerAfterLogin(sys: System, n: string, s: Socket, o: string, u: string, d: string, d0: string)
    requires AgreeAt(sys, n, u, d0) && n in sys.locals && d0 != HTTP_DEVICE_ID
    requires Settled(sys, n, u, d0) && DeviceOf(sys.locals[n], s, u) == Some(d0)
    ensures StoreStep(AddStep(sys, n, s, o, u, d), n, s, o, u, d).registry.NodeOf(u, d0) in {None, Some(n)}
  {
    StoreOwner(sys.registry, n, AddStep(sys, n, s, o, u, d).locals[n].Connected(u), o, u, d, u, d0);
    assert d0 in sys.locals[n].Connected(u);
  }

  lemma HeldAfterLogin(sys: System, n: string, s: Socket, o: string, u: string, d: string, d0: string)
    requires n in sys.locals && Tables(sys.locals[n]) && DeviceOf(sys.locals[n], s, u) == Some(d0)
    ensures d0 in StoreStep(AddStep(sys, n, s, o, u, d), n, s, o, u, d).locals[n].Connected(u) <==> d0 == d
  {
    var sys1 := AddStep(sys, n, s, o, u, d);
    AddConnected(sys.locals[n], s, o, u, d, u, d0);
    assert StoreStep(sys1, n, s, o, u, d).locals[n].devices == sys1.locals[n].devices;
  }

  /** A close leaves another node's entry in place exactly when it is not the entry of the closing socket's
      own device: a device that moved to another node loses its entry when its old socket closes. */
  lemma CloseKeepsForeignEntryIff(sys: System, n: string, s: Socket, v: string, e: string, m: string,
                                  orgOf: string -> string)
    requires SystemInv(sys, orgOf) && n in sys.locals && s in sys.locals[n].sessions
    requires sys.registry.NodeOf(v, e) == Some(m) && m != n
    ensures var u := sys.locals[n].sessions[s].user;
      CloseStep(sys, n, s).registry.NodeOf(v, e) == Some(m) <==> !(v == u && DeviceOf(sys.locals[n], s, u) == Some(e))
  {
    assert TablesOk(sys.locals[n], orgOf);
    CloseOwner(sys, n, s, v, e);
  }
}
