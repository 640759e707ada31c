/** Who observes whose activity, kept twice over: in memory on a stand-alone node, and in two Redis hashes
    in a cluster, where a target's observers are one comma-joined string. */
module Presence {
  import opened Text

  // ---- the in-memory form ----

  /** SUBSCRIBED_TO and SUBSCRIBERS; an observers object is the set of its keys. */
  datatype Index = Index(subscribedTo: map<string, string>, subscribers: map<string, set<string>>)
  {
    function Observers(t: string): set<string> {
      if t in subscribers then subscribers[t] else {}
    }
  }

  const NO_INDEX := Index(map[], map[])

  /** activity_manager_standalone/index.js:56-61; an observer without a target looks under the key "undefined". */
  function Unsubscribe(x: Index, o: string): Index {
    var t := if o in x.subscribedTo then x.subscribedTo[o] else "undefined";
    Index(x.subscribedTo - {o}, if t in x.subscribers then x.subscribers[t := x.subscribers[t] - {o}] else x.subscribers)
  }

  /** activity_manager_standalone/index.js:49-54 */
  function Subscribe(x: Index, o: string, t: string): Index {
    var x' := Unsubscribe(x, o);
    Index(x'.subscribedTo[o := t], x'.subscribers[t := x'.Observers(t) + {o}])
  }

  // ---- the Redis form ----

  datatype Hashes = Hashes(subscribedTo: map<string, string>, subscribers: map<string, string>)
  {
    /** activity_manager_cluster/index.js:46-50: a missing or empty field means no observers. */
    function Observers(t: string): seq<string> {
      if t in subscribers && subscribers[t] != "" then Split(subscribers[t], ',') else []
    }
  }

  const NO_HASHES := Hashes(map[], map[])

  /** `new Set(list)`, as the list of its elements in insertion order. */
  function Unique(xs: seq<string>): (r: seq<string>)
    ensures Distinct(r) && SetOf(r) == SetOf(xs)
    ensures Distinct(xs) ==> r == xs
  {
    if xs == [] then []
    else
      var front, last := xs[..|xs| - 1], xs[|xs| - 1];
      assert xs == front + [last];
      Inserted(Unique(front), last)
  }

  /** `set.add(x)` */
  function Inserted(xs: seq<string>, x: string): (r: seq<string>)
    ensures Distinct(xs) ==> Distinct(r)
    ensures SetOf(r) == SetOf(xs) + {x}
  {
    if x in xs then assert SetOf(xs) + {x} == SetOf(xs); xs else xs + [x]
  }

  /** `set.delete(x)` */
  function Deleted(xs: seq<string>, x: string): (r: seq<string>)
    ensures SetOf(r) == SetOf(xs) - {x}
    ensures Distinct(xs) ==> Distinct(r)
  {
    if xs == [] then []
    else
      var front, last := xs[..|xs| - 1], xs[|xs| - 1];
      assert xs == front + [last];
      var r := Deleted(front, x);
      assert forall y :: y in r ==> y in SetOf(r);
      assert forall y :: y in r ==> y in front;
      assert Distinct(xs) ==> last !in front;
      SetOfSnoc(front, last);
      SetOfSnoc(r, last);
      if last == x then r else r + [last]
  }

  /** activity_manager_cluster/index.js:52-62 */
  function AddSubscriber(h: Hashes, t: string, o: string): Hashes {
    h.(subscribers := h.subscribers[t := Join(Inserted(Unique(h.Observers(t)), o), ',')])
  }

  /** activity_manager_cluster/index.js:64-79: the field of a target without observers is removed. */
  function DeleteSubscriber(h: Hashes, t: string, o: string): Hashes {
    var left := Deleted(Unique(h.Observers(t)), o);
    h.(subscribers := if left == [] then h.subscribers - {t} else h.subscribers[t := Join(left, ',')])
  }

  /** activity_manager_cluster/index.js:92-100 */
  function UnsubscribeHashes(h: Hashes, o: string): Hashes {
    var h' := h.(subscribedTo := h.subscribedTo - {o});
    if o in h.subscribedTo && h.subscribedTo[o] != "" then DeleteSubscriber(h', h.subscribedTo[o], o) else h'
  }

  /** activity_manager_cluster/index.js:85-90 */
  function SubscribeHashes(h: Hashes, o: string, t: string): Hashes {
    var h' := UnsubscribeHashes(h, o);
    AddSubscriber(h'.(subscribedTo := h'.subscribedTo[o := t]), t, o)
  }

  // ---- runs ----

  /** A user's activity update says whether the user came online; going offline ends the user's observing. */
  datatype Step = Subscribing(o: string, t: string) | Unsubscribing(o: string) | Activity(u: string, isOnline: bool)

  function Apply(x: Index, e: Step): Index {
    match e
    case Subscribing(o, t) => Subscribe(x, o, t)
    case Unsubscribing(o) => Unsubscribe(x, o)
    case Activity(u, isOnline) => if isOnline then x else Unsubscribe(x, u)
  }

  function ApplyHashes(h: Hashes, e: Step): Hashes {
    match e
    case Subscribing(o, t) => SubscribeHashes(h, o, t)
    case Unsubscribing(o) => UnsubscribeHashes(h, o)
    case Activity(u, isOnline) => if isOnline then h else UnsubscribeHashes(h, u)
  }

  function Run(x: Index, es: seq<Step>): Index {
    if es == [] then x else Apply(Run(x, es[..|es| - 1]), es[|es| - 1])
  }

  function RunHashes(h: Hashes, es: seq<Step>): Hashes {
    if es == [] then h else ApplyHashes(RunHashes(h, es[..|es| - 1]), es[|es| - 1])
  }

  /** A user id survives the comma-joined form. */
  predicate IsId(s: string) {
    s != "" && Free(s, ',')
  }

  /** Observers survive it, and targets are not empty. */
  predicate Ids(e: Step) {
    match e
    case Subscribing(o, t) => IsId(o) && t != ""
    case _ => true
  }

  // ---- the two tables are inverse ----

  /** o observes t exactly when t lists o; the map gives each observer at most one target. */
  ghost predicate Inverse(x: Index) {
    forall o, t :: o in x.Observers(t) <==> o in x.subscribedTo && x.subscribedTo[o] == t
  }

  lemma UnsubscribeInverse(x: Index, o: string)
    requires Inverse(x)
    ensures Inverse(Unsubscribe(x, o))
    ensures forall t :: Unsubscribe(x, o).Observers(t) == x.Observers(t) - {o}
  {
    forall t ensures Unsubscribe(x, o).Observers(t) == x.Observers(t) - {o} {
      assert o in x.Observers(t) ==> x.subscribedTo[o] == t;
    }
  }

  lemma SubscribeInverse(x: Index, o: string, t: string)
    requires Inverse(x)
    ensures Inverse(Subscribe(x, o, t))
    ensures forall t' :: Subscribe(x, o, t).Observers(t') == if t' == t then x.Observers(t') + {o} else x.Observers(t') - {o}
  {
    UnsubscribeInverse(x, o);
    var x1, x' := Unsubscribe(x, o), Subscribe(x, o, t);
    forall o', t' ensures o' in x'.Observers(t') <==> o' in x'.subscribedTo && x'.subscribedTo[o'] == t' {
      assert o' in x1.Observers(t') <==> o' in x1.subscribedTo && x1.subscribedTo[o'] == t';
    }
  }

  // ---- the Redis form simulates the in-memory form ----

  /** Every stored field splits into distinct non-empty ids. */
  ghost predicate Canonical(h: Hashes) {
    forall t :: t in h.subscribers ==>
      Distinct(Split(h.subscribers[t], ',')) && forall x :: x in Split(h.subscribers[t], ',') ==> x != ""
  }

  ghost predicate SameAt(h: Hashes, x: Index, t: string) {
    SetOf(h.Observers(t)) == x.Observers(t)
  }

  ghost predicate SameObservers(h: Hashes, x: Index) {
    forall t :: SameAt(h, x, t)
  }

  ghost predicate Simulates(h: Hashes, x: Index) {
    && h.subscribedTo == x.subscribedTo
    && (forall o :: o in h.subscribedTo ==> h.subscribedTo[o] != "")
    && Canonical(h) && SameObservers(h, x)
  }

  lemma StoredList(xs: seq<string>)
    requires xs != [] && forall x :: x in xs ==> IsId(x)
    ensures Split(Join(xs, ','), ',') == xs && Join(xs, ',') != ""
  {
    forall i | 0 <= i < |xs| ensures Free(xs[i], ',') && xs[i] != "" {
      assert xs[i] in xs && IsId(xs[i]);
    }
    SplitJoin(xs, ',');
  }

  lemma ObserversAreIds(h: Hashes, t: string)
    requires Canonical(h)
    ensures Distinct(h.Observers(t)) && forall x :: x in h.Observers(t) ==> IsId(x)
  {
  }

  lemma AddSubscriberObservers(h: Hashes, t: string, o: string)
    requires Canonical(h) && IsId(o)
    ensures var h' := AddSubscriber(h, t, o);
      Canonical(h') && forall t' :: SetOf(h'.Observers(t')) == if t' == t then SetOf(h.Observers(t)) + {o} else SetOf(h.Observers(t'))
  {
    ObserversAreIds(h, t);
    var xs := Inserted(Unique(h.Observers(t)), o);
    assert forall x :: x in xs <==> x in SetOf(xs);
    assert o in SetOf(xs);
    StoredList(xs);
  }

  lemma LeftAreIds(h: Hashes, t: string, o: string)
    requires Canonical(h)
    ensures var left := Deleted(Unique(h.Observers(t)), o);
      && Distinct(left) && SetOf(left) == SetOf(h.Observers(t)) - {o} && (forall x :: x in left ==> IsId(x))
      && (left != [] ==> Split(Join(left, ','), ',') == left && Join(left, ',') != "")
  {
    ObserversAreIds(h, t);
    var left := Deleted(Unique(h.Observers(t)), o);
    forall x | x in left ensures IsId(x) {
      assert x in SetOf(left) && x in SetOf(h.Observers(t));
    }
    if left != [] {
      StoredList(left);
    }
  }

  lemma DeleteSubscriberObservers(h: Hashes, t: string, o: string)
    requires Canonical(h)
    ensures var h' := DeleteSubscriber(h, t, o);
      Canonical(h') && forall t' :: SetOf(h'.Observers(t')) == if t' == t then SetOf(h.Observers(t)) - {o} else SetOf(h.Observers(t'))
  {
    LeftAreIds(h, t, o);
  }

  lemma UnsubscribeSameAt(h: Hashes, x: Index, o: string, t: string)
    requires Canonical(h) && h.subscribedTo == x.subscribedTo && (o in h.subscribedTo ==> h.subscribedTo[o] != "")
    requires Inverse(x) && SameAt(h, x, t)
    ensures Canonical(UnsubscribeHashes(h, o)) && SameAt(UnsubscribeHashes(h, o), Unsubscribe(x, o), t)
  {
    UnsubscribeInverse(x, o);
    var h1 := h.(subscribedTo := h.subscribedTo - {o});
    assert h1.Observers(t) == h.Observers(t);
    assert o in x.Observers(t) <==> o in x.subscribedTo && x.subscribedTo[o] == t;
    if o in h.subscribedTo {
      DeleteSubscriberObservers(h1, h.subscribedTo[o], o);
    }
  }

  lemma UnsubscribeSimulates(h: Hashes, x: Index, o: string)
    requires Simulates(h, x) && Inverse(x)
    ensures Simulates(UnsubscribeHashes(h, o), Unsubscribe(x, o))
  {
    forall t ensures SameAt(UnsubscribeHashes(h, o), Unsubscribe(x, o), t) {
      assert SameAt(h, x, t);
      UnsubscribeSameAt(h, x, o, t);
    }
    assert SameAt(h, x, "");
    UnsubscribeSameAt(h, x, o, "");
  }

  lemma SubscribeSameAt(h: Hashes, x: Index, o: string, t: string, t': string)
    requires Canonical(UnsubscribeHashes(h, o)) && IsId(o) && SameAt(UnsubscribeHashes(h, o), Unsubscribe(x, o), t')
    ensures Canonical(SubscribeHashes(h, o, t)) && SameAt(SubscribeHashes(h, o, t), Subscribe(x, o, t), t')
  {
    var h1 := UnsubscribeHashes(h, o);
    var h2 := h1.(subscribedTo := h1.subscribedTo[o := t]);
    assert h2.Observers(t') == h1.Observers(t');
    AddSubscriberObservers(h2, t, o);
  }

  lemma SubscribeSimulates(h: Hashes, x: Index, o: string, t: string)
    requires Simulates(h, x) && Inverse(x) && IsId(o) && t != ""
    ensures Simulates(SubscribeHashes(h, o, t), Subscribe(x, o, t))
  {
    UnsubscribeSimulates(h, x, o);
    forall t' ensures Canonical(SubscribeHashes(h, o, t)) && SameAt(SubscribeHashes(h, o, t), Subscribe(x, o, t), t') {
      assert SameAt(UnsubscribeHashes(h, o), Unsubscribe(x, o), t');
      SubscribeSameAt(h, x, o, t, t');
    }
    assert SameAt(SubscribeHashes(h, o, t), Subscribe(x, o, t), t);
  }

  /** Coming online moves no observer and no target, in either form; going offline ends the user's own observing and
      nobody else's. */
  lemma ActivityExact(x: Index, h: Hashes, u: string, isOnline: bool, t: string)
    requires Inverse(x) && Simulates(h, x)
    ensures Apply(x, Activity(u, isOnline)).Observers(t) == if isOnline then x.Observers(t) else x.Observers(t) - {u}
    ensures Apply(x, Activity(u, isOnline)).subscribedTo == if isOnline then x.subscribedTo else x.subscribedTo - {u}
    ensures SetOf(ApplyHashes(h, Activity(u, isOnline)).Observers(t)) == if isOnline then x.Observers(t) else x.Observers(t) - {u}
    ensures ApplyHashes(h, Activity(u, isOnline)).subscribedTo == if isOnline then x.subscribedTo else x.subscribedTo - {u}
  {
    UnsubscribeInverse(x, u);
    UnsubscribeSimulates(h, x, u);
    assert SameAt(h, x, t) && SameAt(UnsubscribeHashes(h, u), Unsubscribe(x, u), t);
  }

  /** In every sequential run the two tables are inverse to each other, and the comma-joined form stands for
      the in-memory form: same targets, and the same observers to notify of any user's activity. */
  lemma {:induction false} RunSimulates(es: seq<Step>)
    requires forall e :: e in es ==> Ids(e)
    ensures Inverse(Run(NO_INDEX, es))
    ensures Simulates(RunHashes(NO_HASHES, es), Run(NO_INDEX, es))
  {
    if es != [] {
      var front, e := es[..|es| - 1], es[|es| - 1];
      assert e in es && forall e' :: e' in front ==> e' in es;
      RunSimulates(front);
      var h, x := RunHashes(NO_HASHES, front), Run(NO_INDEX, front);
      match e
      case Subscribing(o, t) => SubscribeSimulates(h, x, o, t); SubscribeInverse(x, o, t);
      case Unsubscribing(o) => UnsubscribeSimulates(h, x, o); UnsubscribeInverse(x, o);
      case Activity(u, isOnline) => UnsubscribeSimulates(h, x, u); UnsubscribeInverse(x, u);
    }
  }

  // ---- exactly which ids the comma-joined form can hold ----

  /** One more part at the end of a joined string splits as it would alone. */
  lemma {:induction false} SplitJoinLast(xs: seq<string>, o: string)
    requires forall x :: x in xs ==> Free(x, ',')
    ensures Split(Join(xs + [o], ','), ',') == xs + Split(o, ',')
    ensures xs != [] ==> Join(xs + [o], ',') != ""
  {
    if xs == [] {
      assert xs + [o] == [o] && xs + Split(o, ',') == Split(o, ',');
    } else {
      var x, rest := xs[0], xs[1..] + [o];
      assert xs + [o] == [x] + rest;
      SplitJoinLast(xs[1..], o);
      JoinFirst(x, rest, ',');
      SplitFirst(x, Join(rest, ','), ',');
      assert [x] + (xs[1..] + Split(o, ',')) == xs + Split(o, ',');
    }
  }

  /** The target's stored observers after a subscription, whatever the observer's id. */
  lemma ObserversAfter(h: Hashes, x: Index, o: string, t: string)
    requires Simulates(h, x) && Inverse(x)
    ensures var left := UnsubscribeHashes(h, o).Observers(t);
      && SetOf(left) == x.Observers(t) - {o} && (forall y :: y in left ==> IsId(y))
      && SubscribeHashes(h, o, t).Observers(t) == if left == [] && o == "" then [] else left + Split(o, ',')
  {
    UnsubscribeSimulates(h, x, o);
    UnsubscribeInverse(x, o);
    var h1 := UnsubscribeHashes(h, o);
    var left := h1.Observers(t);
    ObserversAreIds(h1, t);
    assert SameAt(h1, Unsubscribe(x, o), t);
    assert o !in left by {
      assert o !in SetOf(left);
    }
    SplitJoinLast(left, o);
    assert SubscribeHashes(h, o, t).subscribers[t] == Join(left + [o], ',');
  }

  lemma OtherTargets(h: Hashes, x: Index, o: string, t: string)
    requires Simulates(h, x) && Inverse(x)
    ensures forall t' :: t' != t ==> SameAt(SubscribeHashes(h, o, t), Subscribe(x, o, t), t')
  {
    UnsubscribeSimulates(h, x, o);
    var h1 := UnsubscribeHashes(h, o);
    forall t' | t' != t ensures SameAt(SubscribeHashes(h, o, t), Subscribe(x, o, t), t') {
      assert SubscribeHashes(h, o, t).Observers(t') == h1.Observers(t');
      assert SameAt(h1, Unsubscribe(x, o), t');
    }
  }

  /** From any state in which the Redis form stands for the in-memory form, the observers still are the same after
      a subscription if and only if the observer's id has no comma and is not empty; an empty one passes too as
      long as the target has another observer. */
  lemma StoredObserverIff(h: Hashes, x: Index, o: string, t: string)
    requires Simulates(h, x) && Inverse(x)
    ensures SameObservers(SubscribeHashes(h, o, t), Subscribe(x, o, t)) <==>
            Free(o, ',') && (o != "" || x.Observers(t) - {o} != {})
  {
    var h', x' := SubscribeHashes(h, o, t), Subscribe(x, o, t);
    var left := UnsubscribeHashes(h, o).Observers(t);
    ObserversAfter(h, x, o, t);
    SubscribeInverse(x, o, t);
    StoredSetIff(left, o);
    assert x'.Observers(t) == SetOf(left) + {o};
    OtherTargets(h, x, o, t);
    OnlyAtTarget(h', x', t);
  }

  lemma OnlyAtTarget(h: Hashes, x: Index, t: string)
    requires forall t' :: t' != t ==> SameAt(h, x, t')
    ensures SameObservers(h, x) <==> SetOf(h.Observers(t)) == x.Observers(t)
  {
    assert SameAt(h, x, t) <==> SetOf(h.Observers(t)) == x.Observers(t);
  }

  /** The stored list with one more observer, as a set. */
  lemma StoredSetIff(left: seq<string>, o: string)
    requires forall y :: y in left ==> IsId(y)
    requires o !in left
    ensures left == [] <==> SetOf(left) == {}
    ensures SetOf(if left == [] && o == "" then [] else left + Split(o, ',')) == SetOf(left) + {o} <==>
            Free(o, ',') && (o != "" || left != [])
  {
    if left != [] {
      assert left[0] in SetOf(left);
    }
    if Free(o, ',') {
      SplitWhole(o, ',');
      SetOfSnoc(left, o);
    } else {
      assert o !in left + Split(o, ',');
      assert o in SetOf(left) + {o};
    }
  }

  /** And the Redis form goes on standing for the in-memory form if and only if, besides, the id is not empty at
      all and neither is the target. */
  lemma SubscribeSimulatesIff(h: Hashes, x: Index, o: string, t: string)
    requires Simulates(h, x) && Inverse(x)
    ensures Simulates(SubscribeHashes(h, o, t), Subscribe(x, o, t)) <==> Ids(Subscribing(o, t))
  {
    var h' := SubscribeHashes(h, o, t);
    if Ids(Subscribing(o, t)) {
      SubscribeSimulates(h, x, o, t);
    } else if t == "" {
      assert h'.subscribedTo[o] == "";
    } else {
      StoredObserverIff(h, x, o, t);
      if o == "" && x.Observers(t) - {o} != {} {
        EmptyIdStored(h, x, t);
      }
    }
  }

  lemma EmptyIdStored(h: Hashes, x: Index, t: string)
    requires Simulates(h, x) && Inverse(x) && x.Observers(t) - {""} != {}
    ensures !Canonical(SubscribeHashes(h, "", t))
  {
    var h' := SubscribeHashes(h, "", t);
    ObserversAfter(h, x, "", t);
    assert "" in h'.Observers(t);
  }

  ghost predicate SimulatesThroughout(es: seq<Step>) {
    && Simulates(RunHashes(NO_HASHES, es), Run(NO_INDEX, es))
    && (es != [] ==> SimulatesThroughout(es[..|es| - 1]))
  }

  /** Over every sequential run, with any ids: the Redis form stands for the in-memory form all the way if and only
      if every subscription has a non-empty comma-free observer and a non-empty target. */
  lemma {:induction false} RunSimulatesIff(es: seq<Step>)
    ensures SimulatesThroughout(es) <==> forall e :: e in es ==> Ids(e)
  {
    if es != [] {
      var front, e := es[..|es| - 1], es[|es| - 1];
      assert es == front + [e];
      RunSimulatesIff(front);
      if forall e' :: e' in front ==> Ids(e') {
        RunSimulates(front);
        var h, x := RunHashes(NO_HASHES, front), Run(NO_INDEX, front);
        match e {
          case Subscribing(o, t) => SubscribeSimulatesIff(h, x, o, t);
          case Unsubscribing(o) => UnsubscribeSimulates(h, x, o);
          case Activity(u, isOnline) => UnsubscribeSimulates(h, x, u);
        }
        assert SimulatesThroughout(es) <==> Ids(e);
      }
    }
  }

  lemma EmptyIdEnters(h: Hashes, x: Index, p: string, t: string)
    requires Simulates(h, x) && Inverse(x) && x.Observers(t) == {p} && p != ""
    ensures SameObservers(SubscribeHashes(h, "", t), Subscribe(x, "", t))
    ensures SetOf(SubscribeHashes(h, "", t).Observers(t)) == Subscribe(x, "", t).Observers(t) == {p, ""}
  {
    StoredObserverIff(h, x, "", t);
    SubscribeInverse(x, "", t);
    assert SameAt(SubscribeHashes(h, "", t), Subscribe(x, "", t), t);
  }

  lemma ObserverNotEmpty(h: Hashes, x: Index, p: string, t: string)
    requires Simulates(h, x) && p in x.Observers(t)
    ensures p != ""
  {
    ObserversAreIds(h, t);
    assert SameAt(h, x, t) && p in SetOf(h.Observers(t));
  }

  /** An empty id that got in beside one other observer is lost as soon as that one leaves. */
  lemma EmptyIdLost(h: Hashes, x: Index, p: string, t: string)
    requires Simulates(h, x) && Inverse(x) && x.Observers(t) == {p} && t != ""
    ensures SameObservers(SubscribeHashes(h, "", t), Subscribe(x, "", t))
    ensures UnsubscribeHashes(SubscribeHashes(h, "", t), p).Observers(t) == []
    ensures Unsubscribe(Subscribe(x, "", t), p).Observers(t) == {""}
  {
    ObserverNotEmpty(h, x, p, t);
    EmptyIdEnters(h, x, p, t);
    SubscribeInverse(x, "", t);
    UnsubscribeInverse(Subscribe(x, "", t), p);
    var h1 := SubscribeHashes(h, "", t);
    assert h1.subscribedTo[p] == t by {
      assert p in x.Observers(t);
      UnsubscribeSimulates(h, x, "");
    }
    DeleteLeavesEmpty(h1.(subscribedTo := h1.subscribedTo - {p}), t, p);
  }

  lemma DeleteLeavesEmpty(h: Hashes, t: string, p: string)
    requires p != "" && SetOf(h.Observers(t)) == {p, ""}
    ensures DeleteSubscriber(h, t, p).Observers(t) == []
  {
    var left := Deleted(Unique(h.Observers(t)), p);
    assert SetOf(left) == {""};
    OnlyOne(left, "");
    assert Join([""], ',') == "";
  }

  lemma OnlyOne(s: seq<string>, x: string)
    requires Distinct(s) && SetOf(s) == {x}
    ensures s == [x]
  {
    DistinctCard(s);
    assert s[0] in SetOf(s);
  }

  // ---- the two services ----

  class ActivityManagerStandalone {
    var subscribedTo: map<string, string>
    var subscribers: map<string, set<string>>

    constructor ()
      ensures View() == NO_INDEX
    {
      subscribedTo, subscribers := map[], map[];
    }

    ghost function View(): Index
      reads this
    {
      Index(subscribedTo, subscribers)
    }

    method UnsubscribeObserver(o: string)
      modifies this
      ensures View() == Unsubscribe(old(View()), o)
      ensures Inverse(old(View())) ==> Inverse(View()) && o !in subscribedTo
      ensures Inverse(old(View())) ==> forall x :: View().Observers(x) == old(View()).Observers(x) - {o}
    {
      if Inverse(View()) {
        UnsubscribeInverse(View(), o);
      }
      var t := if o in subscribedTo then subscribedTo[o] else "undefined";
      subscribedTo := subscribedTo - {o};
      if t in subscribers {
        subscribers := subscribers[t := subscribers[t] - {o}];
      }
    }

    method SubscribeObserverToTarget(o: string, t: string)
      modifies this
      ensures View() == Subscribe(old(View()), o, t)
      ensures Inverse(old(View())) ==> Inverse(View()) && o in View().Observers(t)
      ensures Inverse(old(View())) ==> forall x :: View().Observers(x) - {o} == old(View()).Observers(x) - {o}
      ensures Inverse(old(View())) ==> forall x :: x != t ==> o !in View().Observers(x)
    {
      if Inverse(View()) {
        SubscribeInverse(View(), o, t);
      }
      UnsubscribeObserver(o);
      subscribedTo := subscribedTo[o := t];
      if t !in subscribers {
        subscribers := subscribers[t := {}];
      }
      subscribers := subscribers[t := subscribers[t] + {o}];
    }

    /** The observers to notify of the user's new status, if any. */
    method UpdateUserActivity(u: string, isOnline: bool) returns (notified: Option<set<string>>)
      modifies this
      ensures View() == Apply(old(View()), Activity(u, isOnline))
      ensures notified == if View().Observers(u) == {} then None else Some(View().Observers(u))
    {
      if !isOnline {
        UnsubscribeObserver(u);
      }
      var observers := if u in subscribers then subscribers[u] else {};
      notified := if observers == {} then None else Some(observers);
    }
  }

  class ActivityManagerCluster {
    var subscribedTo: map<string, string>
    var subscribers: map<string, string>

    constructor ()
      ensures View() == NO_HASHES
    {
      subscribedTo, subscribers := map[], map[];
    }

    ghost function View(): Hashes
      reads this
    {
      Hashes(subscribedTo, subscribers)
    }

    method Subscribers(t: string) returns (observers: seq<string>)
      ensures observers == View().Observers(t)
    {
      observers := if t in subscribers && subscribers[t] != "" then Split(subscribers[t], ',') else [];
    }

    method UnsubscribeObserver(o: string)
      modifies this
      ensures View() == UnsubscribeHashes(old(View()), o)
      ensures forall x :: Simulates(old(View()), x) && Inverse(x) ==> Simulates(View(), Unsubscribe(x, o))
    {
      forall x | Simulates(View(), x) && Inverse(x) {
        UnsubscribeSimulates(View(), x, o);
      }
      var t := if o in subscribedTo then subscribedTo[o] else "";
      subscribedTo := subscribedTo - {o};
      if t != "" {
        var observers := Subscribers(t);
        var left := Deleted(Unique(observers), o);
        if left == [] {
          subscribers := subscribers - {t};
          return;
        }
        subscribers := subscribers[t := Join(left, ',')];
      }
    }

    method SubscribeObserverToTarget(o: string, t: string)
      modifies this
      ensures View() == SubscribeHashes(old(View()), o, t)
      ensures forall x :: Simulates(old(View()), x) && Inverse(x) ==> (Simulates(View(), Subscribe(x, o, t)) <==> IsId(o) && t != "")
    {
      forall x | Simulates(View(), x) && Inverse(x) {
        SubscribeSimulatesIff(View(), x, o, t);
      }
      UnsubscribeObserver(o);
      subscribedTo := subscribedTo[o := t];
      var observers := Subscribers(t);
      subscribers := subscribers[t := Join(Inserted(Unique(observers), o), ',')];
    }

    method UpdateUserActivity(u: string, isOnline: bool) returns (notified: Option<seq<string>>)
      modifies this
      ensures View() == ApplyHashes(old(View()), Activity(u, isOnline))
      ensures notified == if View().Observers(u) == [] then None else Some(View().Observers(u))
    {
      if !isOnline {
        UnsubscribeObserver(u);
      }
      var observers := Subscribers(u);
      notified := if observers == [] then None else Some(observers);
    }
  }
}
