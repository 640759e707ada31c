/** `ServiceLocatorContainer`: singletons are built on first use by a constructor that asks the container for
    what it needs. A construction is recorded in `log`; an instance is its position there. */
module ServiceLocator {
  import opened Text

  /** What a provider's `register` asks the container for, in order, before it returns its instance. */
  datatype Provider = Provider(isTransient: bool, needs: seq<string>)

  datatype Container = Container(store: map<string, Provider>, instances: map<string, nat>, log: seq<string>)

  /** The provider graph has no cycle: needs have a lower rank. */
  ghost predicate Acyclic(store: map<string, Provider>, rank: string -> nat) {
    forall name, need :: name in store && need in store[name].needs && need in store ==> rank(need) < rank(name)
  }

  /** ServiceLocatorContainer.js:16-32; no instance means that a provider is missing, which throws. */
  ghost function Use(c: Container, name: string, rank: string -> nat): (r: (Container, Option<nat>))
    requires Acyclic(c.store, rank)
    ensures r.0.store == c.store
    decreases rank(name), 2, 0
  {
    if name !in c.store then (c, None)
    else if c.store[name].isTransient then Register(c, name, rank)
    else if name in c.instances then (c, Some(c.instances[name]))
    else
      var (c', i) := Register(c, name, rank);
      (if i.Some? then c'.(instances := c'.instances[name := i.value]) else c', i)
  }

  /** `registerProvider.register(this)` */
  ghost function Register(c: Container, name: string, rank: string -> nat): (r: (Container, Option<nat>))
    requires Acyclic(c.store, rank) && name in c.store
    ensures r.0.store == c.store
    decreases rank(name), 1, 0
  {
    var (c', ok) := UseAll(c, c.store[name].needs, rank(name), rank);
    if ok then (c'.(log := c'.log + [name]), Some(|c'.log|)) else (c', None)
  }

  ghost function UseAll(c: Container, names: seq<string>, bound: nat, rank: string -> nat): (r: (Container, bool))
    requires Acyclic(c.store, rank) && forall name :: name in names && name in c.store ==> rank(name) < bound
    ensures r.0.store == c.store
    decreases bound, 0, |names|
  {
    if names == [] then (c, true)
    else
      var front, last := names[..|names| - 1], names[|names| - 1];
      assert names == front + [last];
      var (c1, ok) := UseAll(c, front, bound, rank);
      if !ok || last !in c.store then (c1, false)
      else
        var (c2, i) := Use(c1, last, rank);
        (c2, i.Some?)
  }

  // ---- memoisation ----

  predicate IsSingleton(c: Container, name: string) {
    name in c.store && !c.store[name].isTransient
  }

  /** The recorded instances are exactly the constructions of singletons: so none was constructed twice. */
  ghost predicate Memoised(c: Container) {
    && (forall name :: name in c.instances ==> IsSingleton(c, name) && c.instances[name] < |c.log| && c.log[c.instances[name]] == name)
    && (forall i :: 0 <= i < |c.log| && IsSingleton(c, c.log[i]) ==> c.log[i] in c.instances && c.instances[c.log[i]] == i)
  }

  /** c' extends c: nothing constructed is lost or replaced, and what is new has at most the given rank. */
  ghost predicate Extends(c: Container, c': Container, bound: nat, rank: string -> nat) {
    && c'.store == c.store && c.log <= c'.log
    && (forall name :: name in c.instances ==> name in c'.instances && c'.instances[name] == c.instances[name])
    && (forall i :: |c.log| <= i < |c'.log| ==> rank(c'.log[i]) <= bound)
    && (forall name :: name in c'.instances && name !in c.instances ==> rank(name) <= bound)
  }

  ghost predicate Closed(store: map<string, Provider>) {
    forall name, need :: name in store && need in store[name].needs ==> need in store
  }

  lemma {:induction false} UseSpec(c: Container, name: string, rank: string -> nat)
    requires Acyclic(c.store, rank) && Memoised(c)
    ensures var (c', i) := Use(c, name, rank);
      && Memoised(c') && Extends(c, c', rank(name), rank)
      && (i.Some? ==> i.value < |c'.log| && c'.log[i.value] == name)
      && (i.Some? && IsSingleton(c, name) ==> name in c'.instances && c'.instances[name] == i.value)
      && (name !in c.store ==> i == None && c' == c)
      && (Closed(c.store) && name in c.store ==> i.Some?)
    decreases rank(name), 2, 0
  {
    if name in c.store && name !in c.instances {
      RegisterSpec(c, name, rank);
    }
  }

  lemma {:induction false} RegisterSpec(c: Container, name: string, rank: string -> nat)
    requires Acyclic(c.store, rank) && Memoised(c) && name in c.store && name !in c.instances
    ensures var (c', i) := Register(c, name, rank);
      && Extends(c, c', rank(name), rank)
      && (i == None || c.store[name].isTransient ==> Memoised(c'))
      && (i.Some? ==> i.value < |c'.log| && c'.log[i.value] == name)
      && (i.Some? && !c.store[name].isTransient ==> name !in c'.instances && Memoised(c'.(instances := c'.instances[name := i.value])))
      && (Closed(c.store) ==> i.Some?)
    decreases rank(name), 1, 0
  {
    var needs := c.store[name].needs;
    UseAllSpec(c, needs, rank(name), rank);
    var (c', ok) := UseAll(c, needs, rank(name), rank);
    assert name !in c'.instances;
    if ok {
      RecordOne(c', name);
    }
  }

  /** Recording one more construction: of a transient, or of a singleton that is then memoised. */
  lemma RecordOne(c: Container, name: string)
    requires Memoised(c) && name in c.store && name !in c.instances
    ensures var c' := c.(log := c.log + [name]);
      Memoised(if c.store[name].isTransient then c' else c'.(instances := c'.instances[name := |c.log|]))
  {
    var c' := c.(log := c.log + [name]);
    forall i | 0 <= i < |c.log| ensures c'.log[i] == c.log[i] && (IsSingleton(c, name) ==> c.log[i] != name) {}
  }

  lemma {:induction false} UseAllSpec(c: Container, names: seq<string>, bound: nat, rank: string -> nat)
    requires Acyclic(c.store, rank) && Memoised(c) && forall name :: name in names && name in c.store ==> rank(name) < bound
    ensures var (c', ok) := UseAll(c, names, bound, rank);
      && Memoised(c') && (if bound == 0 then c' == c else Extends(c, c', bound - 1, rank))
      && (Closed(c.store) && (forall name :: name in names ==> name in c.store) ==> ok)
    decreases bound, 0, |names|
  {
    if names != [] {
      var front, last := names[..|names| - 1], names[|names| - 1];
      assert names == front + [last];
      UseAllSpec(c, front, bound, rank);
      var (c1, ok) := UseAll(c, front, bound, rank);
      if ok && last in c.store {
        UseSpec(c1, last, rank);
      }
    }
  }

  // ---- needs come first ----

  /** The name was constructed among the first k constructions. */
  ghost predicate BuiltBefore(log: seq<string>, k: nat, name: string) {
    exists j :: 0 <= j < k && j < |log| && log[j] == name
  }

  /** Whenever a constructor ran, all it needs had been constructed. */
  ghost predicate NeedsFirst(c: Container) {
    forall i, need :: 0 <= i < |c.log| && c.log[i] in c.store && need in c.store[c.log[i]].needs ==> BuiltBefore(c.log, i, need)
  }

  lemma StillBuilt(log: seq<string>, log': seq<string>, k: nat, k': nat, name: string)
    requires log <= log' && k <= k' && BuiltBefore(log, k, name)
    ensures BuiltBefore(log', k', name)
  {
    var j :| 0 <= j < k && j < |log| && log[j] == name;
    assert log'[j] == name;
  }

  /** A use returns something constructed by then, keeps the order of constructions, and for a transient it is new. */
  lemma {:induction false} UseNeeds(c: Container, name: string, rank: string -> nat)
    requires Acyclic(c.store, rank) && Memoised(c) && NeedsFirst(c)
    ensures var (c', i) := Use(c, name, rank);
      && NeedsFirst(c') && c.log <= c'.log
      && (i.Some? ==> BuiltBefore(c'.log, |c'.log|, name))
      && (i.Some? && c.store[name].isTransient ==> i.value >= |c.log|)
    decreases rank(name), 2, 0
  {
    UseSpec(c, name, rank);
    if name in c.store && name !in c.instances {
      RegisterNeeds(c, name, rank);
    }
  }

  lemma {:induction false} RegisterNeeds(c: Container, name: string, rank: string -> nat)
    requires Acyclic(c.store, rank) && Memoised(c) && NeedsFirst(c) && name in c.store && name !in c.instances
    ensures var (c', i) := Register(c, name, rank);
      && NeedsFirst(c') && c.log <= c'.log
      && (i.Some? ==> BuiltBefore(c'.log, |c'.log|, name) && i.value >= |c.log|)
    decreases rank(name), 1, 0
  {
    UseAllNeeds(c, c.store[name].needs, rank(name), rank);
    var (c1, ok) := UseAll(c, c.store[name].needs, rank(name), rank);
    if ok {
      OneMoreBuilt(c1, name);
    }
  }

  lemma OneMoreBuilt(c: Container, name: string)
    requires NeedsFirst(c) && name in c.store && forall need :: need in c.store[name].needs ==> BuiltBefore(c.log, |c.log|, need)
    ensures NeedsFirst(c.(log := c.log + [name])) && BuiltBefore(c.log + [name], |c.log| + 1, name)
  {
    var log := c.log + [name];
    assert log[|c.log|] == name;
    forall i, need | 0 <= i < |log| && log[i] in c.store && need in c.store[log[i]].needs ensures BuiltBefore(log, i, need) {
      StillBuilt(c.log, log, i, i, need);
    }
  }

  lemma {:induction false} UseAllNeeds(c: Container, names: seq<string>, bound: nat, rank: string -> nat)
    requires Acyclic(c.store, rank) && Memoised(c) && NeedsFirst(c)
    requires forall name :: name in names && name in c.store ==> rank(name) < bound
    ensures var (c', ok) := UseAll(c, names, bound, rank);
      && NeedsFirst(c') && c.log <= c'.log
      && (ok ==> forall name :: name in names ==> BuiltBefore(c'.log, |c'.log|, name))
    decreases bound, 0, |names|
  {
    if names != [] {
      var front, last := names[..|names| - 1], names[|names| - 1];
      assert names == front + [last];
      UseAllNeeds(c, front, bound, rank);
      UseAllSpec(c, front, bound, rank);
      var (c1, ok) := UseAll(c, front, bound, rank);
      if ok && last in c.store {
        UseNeeds(c1, last, rank);
        var (c2, i) := Use(c1, last, rank);
        forall name | name in front ensures BuiltBefore(c2.log, |c2.log|, name) {
          StillBuilt(c1.log, c2.log, |c1.log|, |c2.log|, name);
        }
      }
    }
  }

  /** Building all singletons in some order (ServiceLocatorContainer.js:34-42); a throw stops the loop. */
  ghost function UseEach(c: Container, names: seq<string>, rank: string -> nat): (r: (Container, bool))
    requires Acyclic(c.store, rank)
    ensures r.0.store == c.store
  {
    if names == [] then (c, true)
    else
      var (c1, ok) := UseEach(c, names[..|names| - 1], rank);
      if !ok then (c1, false)
      else
        var (c2, i) := Use(c1, names[|names| - 1], rank);
        (c2, i.Some?)
  }

  lemma {:induction false} UseEachSpec(c: Container, names: seq<string>, rank: string -> nat)
    requires Acyclic(c.store, rank) && Memoised(c) && Closed(c.store) && forall name :: name in names ==> IsSingleton(c, name)
    ensures var (c', ok) := UseEach(c, names, rank);
      ok && Memoised(c') && forall name :: name in names ==> name in c'.instances
  {
    if names != [] {
      var front, last := names[..|names| - 1], names[|names| - 1];
      assert names == front + [last];
      UseEachSpec(c, front, rank);
      var c1 := UseEach(c, front, rank).0;
      assert last in names && IsSingleton(c, last);
      UseSpec(c1, last, rank);
    }
  }

  function Times(log: seq<string>, name: string): nat {
    if log == [] then 0 else Times(log[..|log| - 1], name) + if log[|log| - 1] == name then 1 else 0
  }

  lemma {:induction false} OnlyAt(log: seq<string>, name: string, i: nat)
    requires i < |log| ==> log[i] == name
    requires forall j :: 0 <= j < |log| && log[j] == name ==> j == i
    ensures Times(log, name) == if i < |log| then 1 else 0
  {
    if log != [] {
      OnlyAt(log[..|log| - 1], name, i);
    }
  }

  /** For any acyclic, closed provider graph and any order: building all singletons succeeds, each singleton's
      constructor has run exactly once, and every later use returns that one instance and builds nothing. */
  lemma SingletonsOnce(c: Container, order: seq<string>, rank: string -> nat, name: string)
    requires Acyclic(c.store, rank) && Closed(c.store) && c.instances == map[] && c.log == []
    requires forall n :: n in order <==> IsSingleton(c, n)
    requires IsSingleton(c, name)
    ensures var (c', ok) := UseEach(c, order, rank);
      && ok && name in c'.instances
      && Times(c'.log, name) == 1 && c'.instances[name] < |c'.log| && c'.log[c'.instances[name]] == name
      && Use(c', name, rank) == (c', Some(c'.instances[name]))
  {
    UseEachSpec(c, order, rank);
    var c' := UseEach(c, order, rank).0;
    OnlyAt(c'.log, name, c'.instances[name]);
  }

  // ---- the container itself ----

  class ServiceLocatorContainer {
    var store: map<string, Provider>
    var instances: map<string, nat>
    var log: seq<string>

    constructor ()
      ensures View() == Container(map[], map[], [])
    {
      store, instances, log := map[], map[], [];
    }

    ghost function View(): Container
      reads this
    {
      Container(store, instances, log)
    }

    /** A later registration under the same name replaces the earlier one, but not its instance. */
    method RegisterProvider(name: string, p: Provider)
      modifies this
      ensures View() == old(View()).(store := old(store)[name := p])
    {
      store := store[name := p];
    }

    method CreateProviderInstance(name: string, ghost rank: string -> nat) returns (instance: Option<nat>)
      requires Acyclic(store, rank)
      modifies this
      ensures (View(), instance) == Use(old(View()), name, rank)
      decreases rank(name), 2, 0
    {
      if name !in store {
        return None;
      }
      if store[name].isTransient {
        instance := Construct(name, rank);
        return;
      }
      if name !in instances {
        var i := Construct(name, rank);
        if i == None {
          return None;
        }
        instances := instances[name := i.value];
      }
      instance := Some(instances[name]);
    }

    method Construct(name: string, ghost rank: string -> nat) returns (instance: Option<nat>)
      requires Acyclic(store, rank) && name in store
      modifies this
      ensures (View(), instance) == Register(old(View()), name, rank)
      decreases rank(name), 1, 0
    {
      var needs := store[name].needs;
      ghost var c0 := View();
      for k := 0 to |needs|
        invariant store == c0.store
        invariant (View(), true) == UseAll(c0, needs[..k], rank(name), rank)
      {
        assert needs[..k + 1][..k] == needs[..k];
        assert forall n :: n in needs[..k + 1] ==> n in needs;
        if needs[k] !in store {
          FailedPrefix(c0, needs, k + 1, rank(name), rank);
          return None;
        }
        var i := CreateProviderInstance(needs[k], rank);
        if i == None {
          FailedPrefix(c0, needs, k + 1, rank(name), rank);
          return None;
        }
      }
      assert needs[..|needs|] == needs;
      log := log + [name];
      instance := Some(|log| - 1);
    }

    method CreateAllSingletonInstances(order: seq<string>, ghost rank: string -> nat) returns (isOk: bool)
      requires Acyclic(store, rank)
      requires forall name :: name in order <==> IsSingleton(View(), name)
      modifies this
      ensures (View(), isOk) == UseEach(old(View()), order, rank)
    {
      ghost var c0 := View();
      for k := 0 to |order|
        invariant store == c0.store
        invariant (View(), true) == UseEach(c0, order[..k], rank)
      {
        assert order[..k + 1][..k] == order[..k];
        var i := CreateProviderInstance(order[k], rank);
        if i == None {
          FailedEach(c0, order, k + 1, rank);
          return false;
        }
      }
      assert order[..|order|] == order;
      isOk := true;
    }
  }

  /** After a failed need nothing more is asked for. */
  lemma {:induction false} FailedPrefix(c: Container, names: seq<string>, k: nat, bound: nat, rank: string -> nat)
    requires k <= |names| && Acyclic(c.store, rank) && forall name :: name in names && name in c.store ==> rank(name) < bound
    requires forall name :: name in names[..k] ==> name in names
    requires !UseAll(c, names[..k], bound, rank).1
    ensures UseAll(c, names, bound, rank) == UseAll(c, names[..k], bound, rank)
    decreases |names| - k
  {
    if k == |names| {
      assert names[..k] == names;
    } else {
      assert names[..k + 1][..k] == names[..k];
      FailedPrefix(c, names, k + 1, bound, rank);
    }
  }

  lemma {:induction false} FailedEach(c: Container, names: seq<string>, k: nat, rank: string -> nat)
    requires k <= |names| && Acyclic(c.store, rank)
    requires !UseEach(c, names[..k], rank).1
    ensures UseEach(c, names, rank) == UseEach(c, names[..k], rank)
    decreases |names| - k
  {
    if k == |names| {
      assert names[..k] == names;
    } else {
      assert names[..k + 1][..k] == names[..k];
      FailedEach(c, names, k + 1, rank);
    }
  }
}
