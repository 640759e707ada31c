/** Conversation membership: the participants table, the cached subscriber count of channels, the participant
    limit, ownership transfer and deletion of emptied conversations. */
module Conversations {
  import opened Text

  datatype Kind = Private | Group | Channel

  /** `subscribers_count`: absent, a number, or what JavaScript makes of subtracting from an absent one. */
  datatype Count = Missing | Number(value: int) | NotANumber

  datatype Conversation = Conversation(kind: Kind, owner: string, opponent: string, subscribers: Count)

  datatype Row = Row(cid: nat, user: string)

  /** The two collections; rows are in storage order. */
  datatype Store = Store(conversations: map<nat, Conversation>, rows: seq<Row>)

  datatype Result<T> = Ok(value: T) | LimitExceeded

  // ---- the participants collection ----

  /** The participants of a conversation, in storage order. */
  function UsersOf(rows: seq<Row>, cid: nat): (us: seq<string>)
    ensures forall u :: u in us <==> Row(cid, u) in rows
  {
    if rows == [] then []
    else
      var front, last := UsersOf(rows[..|rows| - 1], cid), rows[|rows| - 1];
      assert rows == rows[..|rows| - 1] + [last];
      if last.cid == cid then front + [last.user] else front
  }

  /** repositories/conversation_participants/index.js:134-151: each id is upserted in turn; returns the rows and the ids that were new. */
  function AddRows(rows: seq<Row>, cid: nat, ids: seq<string>): (seq<Row>, seq<string>) {
    if ids == [] then (rows, [])
    else
      var (r, added) := AddRows(rows, cid, ids[..|ids| - 1]);
      var row := Row(cid, ids[|ids| - 1]);
      if row in r then (r, added) else (r + [row], added + [row.user])
  }

  /** repositories/conversation_participants/index.js:153-168: each id is deleted in turn; returns the rows and the ids that were there. */
  function RemoveRows(rows: seq<Row>, cid: nat, ids: seq<string>): (seq<Row>, seq<string>) {
    if ids == [] then (rows, [])
    else
      var (r, removed) := RemoveRows(rows, cid, ids[..|ids| - 1]);
      var row := Row(cid, ids[|ids| - 1]);
      if row in r then (Without(r, row), removed + [row.user]) else (r, removed)
  }

  lemma {:induction false} AddRowsSpec(rows: seq<Row>, cid: nat, ids: seq<string>)
    requires Distinct(rows)
    ensures var (r, added) := AddRows(rows, cid, ids);
      && Distinct(r) && |added| <= |ids|
      && (forall x :: x in r <==> x in rows || (x.cid == cid && x.user in ids))
      && (forall u :: u in added <==> u in ids && Row(cid, u) !in rows)
      && UsersOf(r, cid) == UsersOf(rows, cid) + added
      && (forall c: nat :: c != cid ==> UsersOf(r, c) == UsersOf(rows, c))
  {
    if ids == [] {
      assert UsersOf(rows, cid) + [] == UsersOf(rows, cid);
    } else {
      var front, last := ids[..|ids| - 1], ids[|ids| - 1];
      assert ids == front + [last];
      AddRowsSpec(rows, cid, front);
      var (r, added) := AddRows(rows, cid, front);
      var row := Row(cid, last);
      if row !in r {
        DistinctSnoc(r, row);
        assert (r + [row])[..|r|] == r;
        assert UsersOf(rows, cid) + (added + [last]) == (UsersOf(rows, cid) + added) + [last];
      }
    }
  }

  lemma {:induction false} WithoutUsers(rows: seq<Row>, row: Row)
    requires Distinct(rows)
    ensures |UsersOf(Without(rows, row), row.cid)| == |UsersOf(rows, row.cid)| - if row in rows then 1 else 0
    ensures forall c: nat :: c != row.cid ==> UsersOf(Without(rows, row), c) == UsersOf(rows, c)
  {
    if rows != [] {
      var front, last := rows[..|rows| - 1], rows[|rows| - 1];
      assert rows == front + [last] && last !in front;
      WithoutUsers(front, row);
      if last != row {
        var r := Without(front, row);
        assert (r + [last])[..|r|] == r;
      }
    }
  }

  lemma {:induction false} RemoveRowsSpec(rows: seq<Row>, cid: nat, ids: seq<string>)
    requires Distinct(rows)
    ensures var (r, removed) := RemoveRows(rows, cid, ids);
      && Distinct(r)
      && (forall x :: x in r <==> x in rows && !(x.cid == cid && x.user in ids))
      && (forall u :: u in removed <==> u in ids && Row(cid, u) in rows)
      && |UsersOf(r, cid)| + |removed| == |UsersOf(rows, cid)|
      && (forall c: nat :: c != cid ==> UsersOf(r, c) == UsersOf(rows, c))
  {
    if ids != [] {
      var front, last := ids[..|ids| - 1], ids[|ids| - 1];
      assert ids == front + [last];
      RemoveRowsSpec(rows, cid, front);
      var (r, removed) := RemoveRows(rows, cid, front);
      WithoutDistinct(r, Row(cid, last));
      WithoutUsers(r, Row(cid, last));
    }
  }

  // ---- the service calls ----

  function CountOf(c: Count): int {
    if c.Number? then c.value else 0
  }

  /** services/conversation/index.js:222-226,228: the count to start from. */
  function CurrentCount(st: Store, cid: nat, isEmpty: bool): int
    requires cid in st.conversations
  {
    if isEmpty then 0
    else if st.conversations[cid].kind == Channel then CountOf(st.conversations[cid].subscribers)
    else |UsersOf(st.rows, cid)|
  }

  /** services/conversation/index.js:221-255 */
  function AddParticipants(st: Store, cid: nat, ids: seq<string>, isEmpty: bool, max: nat): Result<(Store, seq<string>)>
    requires cid in st.conversations
  {
    var current := CurrentCount(st, cid, isEmpty);
    if |ids| + current > max then LimitExceeded
    else
      var (rows, added) := AddRows(st.rows, cid, ids);
      var c := st.conversations[cid];
      var counted := if c.kind == Channel then c.(subscribers := Number(|added| + current)) else c;
      Ok((Store(st.conversations[cid := counted], rows), added))
  }

  /** services/conversation/index.js:257-285; the new owner is the first participant left. */
  function RemoveParticipants(st: Store, cid: nat, ids: seq<string>): Store
    requires cid in st.conversations
  {
    var (rows, removed) := RemoveRows(st.rows, cid, ids);
    var left := UsersOf(rows, cid);
    if left == [] then Store(st.conversations - {cid}, rows)
    else
      var c := st.conversations[cid];
      var c1 := if c.owner in removed && c.kind != Private then c.(owner := left[0]) else c;
      var c2 := if c.kind == Channel
                then c1.(subscribers := if c.subscribers.Number? then Number(c.subscribers.value - |removed|) else NotANumber) else c1;
      Store(st.conversations[cid := c2], rows)
  }

  /** services/conversation/index.js:213-219: additions first, and nothing at all when they exceed the limit. */
  function UpdateParticipants(st: Store, cid: nat, add: seq<string>, remove: seq<string>, max: nat): Store
    requires cid in st.conversations
  {
    match AddParticipants(st, cid, add, false, max)
    case LimitExceeded => st
    case Ok((st', _)) => RemoveParticipants(st', cid, remove)
  }

  /** services/conversation/index.js:12-23: the record is stored before the limit is checked. */
  function Create(st: Store, cid: nat, c: Conversation, ids: seq<string>, max: nat): (Store, bool) {
    var st1 := st.(conversations := st.conversations[cid := c]);
    if ids == [] then (st1, true)
    else match AddParticipants(st1, cid, ids, true, max)
      case LimitExceeded => (st1, false)
      case Ok((st2, _)) => (st2, true)
  }

  // ---- operations and runs ----

  /** `existing` is the private conversation the lookup finds between the two users, if any. */
  datatype Step =
    | CreatePrivate(cid: nat, owner: string, opponent: string, existing: Option<nat>)
    | CreateGroup(cid: nat, owner: string, ids: seq<string>)
    | CreateChannel(cid: nat, owner: string, ids: seq<string>)
    | Edit(cid: nat, add: seq<string>, remove: seq<string>)
    | Subscribe(cid: nat, user: string)
    | Unsubscribe(cid: nat, user: string)
    | Leave(cid: nat, user: string)

  /** The collections, and which groups and channels were created with more participants than the limit. */
  datatype World = World(store: Store, overLimit: set<nat>)

  /** A group or channel with its owner among the participants; `all` has the owner. */
  function Created(w: World, cid: nat, c: Conversation, all: seq<string>, max: nat): World {
    World(Create(w.store, cid, c, all, max).0, if |all| <= max then w.overLimit else w.overLimit + {cid})
  }

  function Added(w: World, r: Result<(Store, seq<string>)>): World {
    match r case LimitExceeded => w case Ok((st, _)) => w.(store := st)
  }

  function WithOwner(ids: seq<string>, owner: string): seq<string> {
    if owner in ids then ids else ids + [owner]
  }

  /** A request that the operation rejects changes nothing. */
  function Apply(w: World, e: Step, max: nat): World {
    var st := w.store;
    match e
    case CreatePrivate(cid, owner, opponent, existing) =>
      if owner == opponent then w
      else if existing.Some? && existing.value in st.conversations then
        var c := st.conversations[existing.value];
        Added(w, AddParticipants(st, existing.value, [c.owner, c.opponent], false, max))
      else w.(store := Create(st, cid, Conversation(Private, owner, opponent, Missing), [owner, opponent], max).0)
    case CreateGroup(cid, owner, ids) =>
      var all := WithOwner(ids, owner);
      if |all| == 1 then w else Created(w, cid, Conversation(Group, owner, "", Missing), all, max)
    case CreateChannel(cid, owner, ids) =>
      Created(w, cid, Conversation(Channel, owner, "", Missing), WithOwner(ids, owner), max)
    case Edit(cid, add, remove) =>
      if cid !in st.conversations || st.conversations[cid].kind == Private then w
      else w.(store := UpdateParticipants(st, cid, add, remove, max))
    case Subscribe(cid, user) =>
      if cid !in st.conversations || st.conversations[cid].kind != Channel then w
      else Added(w, AddParticipants(st, cid, [user], false, max))
    case Unsubscribe(cid, user) =>
      if cid !in st.conversations || st.conversations[cid].kind != Channel then w
      else w.(store := RemoveParticipants(st, cid, [user]))
    case Leave(cid, user) =>
      if cid !in st.conversations || Row(cid, user) !in st.rows then w
      else w.(store := RemoveParticipants(st, cid, [user]))
  }

  /** New ids are fresh, and the lookup finds a private conversation of the two users. */
  predicate WellFormed(w: World, e: Step) {
    match e
    case CreatePrivate(cid, owner, opponent, existing) =>
      && cid !in w.store.conversations && cid !in w.overLimit
      && (existing.Some? ==>
            && existing.value in w.store.conversations
            && var c := w.store.conversations[existing.value]; c.kind == Private && {c.owner, c.opponent} == {owner, opponent})
    case CreateGroup(cid, _, _) => cid !in w.store.conversations && cid !in w.overLimit
    case CreateChannel(cid, _, _) => cid !in w.store.conversations && cid !in w.overLimit
    case _ => true
  }

  function Run(w: World, es: seq<Step>, max: nat): World {
    if es == [] then w else Apply(Run(w, es[..|es| - 1], max), es[|es| - 1], max)
  }

  const EMPTY_WORLD := World(Store(map[], []), {})

  ghost predicate WellFormedRun(es: seq<Step>, max: nat) {
    es != [] ==> WellFormedRun(es[..|es| - 1], max) && WellFormed(Run(EMPTY_WORLD, es[..|es| - 1], max), es[|es| - 1])
  }

  // ---- the invariant ----

  /** One conversation's rows: within the limit, counted, and owned. */
  ghost predicate Sound(c: Conversation, us: seq<string>, max: nat, isOverLimit: bool) {
    && |us| <= max
    && (c.kind == Channel ==> c.subscribers != NotANumber && CountOf(c.subscribers) == |us|)
    && (c.kind == Private ==> OnlyThem(c, us))
    && (c.kind != Private && !isOverLimit ==> c.owner in us)
  }

  ghost predicate Inv(w: World, max: nat) {
    && Distinct(w.store.rows)
    && (forall x :: x in w.store.rows ==> x.cid in w.store.conversations)
    && (forall cid :: cid in w.store.conversations ==>
          Sound(w.store.conversations[cid], UsersOf(w.store.rows, cid), max, cid in w.overLimit))
  }

  /** Nobody but the two users of a private conversation. */
  ghost predicate OnlyThem(c: Conversation, ids: seq<string>) {
    forall u :: u in ids ==> u in {c.owner, c.opponent}
  }

  lemma AddInv(w: World, cid: nat, ids: seq<string>, max: nat)
    requires Inv(w, max) && cid in w.store.conversations
    requires w.store.conversations[cid].kind == Private ==> OnlyThem(w.store.conversations[cid], ids)
    ensures Inv(Added(w, AddParticipants(w.store, cid, ids, false, max)), max)
    ensures Added(w, AddParticipants(w.store, cid, ids, false, max)).store.conversations.Keys == w.store.conversations.Keys
  {
    var r := AddParticipants(w.store, cid, ids, false, max);
    if r.Ok? {
      AddedSound(w.store, cid, ids, max, cid in w.overLimit);
      AddedElsewhere(w.store, cid, ids, max);
      var st := r.value.0;
      forall other | other in st.conversations && other != cid
        ensures Sound(st.conversations[other], UsersOf(st.rows, other), max, other in w.overLimit)
      {
        assert UsersOf(st.rows, other) == UsersOf(w.store.rows, other);
        assert Sound(w.store.conversations[other], UsersOf(w.store.rows, other), max, other in w.overLimit);
      }
    }
  }

  /** Adding participants changes no other conversation and no other conversation's rows. */
  lemma AddedElsewhere(st: Store, cid: nat, ids: seq<string>, max: nat)
    requires Distinct(st.rows) && cid in st.conversations && AddParticipants(st, cid, ids, false, max).Ok?
    ensures var st' := AddParticipants(st, cid, ids, false, max).value.0;
      && Distinct(st'.rows) && (forall x :: x in st'.rows ==> x in st.rows || x.cid == cid)
      && (forall other: nat :: other != cid ==> UsersOf(st'.rows, other) == UsersOf(st.rows, other))
      && st'.conversations.Keys == st.conversations.Keys
      && (forall other :: other in st.conversations && other != cid ==> st'.conversations[other] == st.conversations[other])
  {
    AddRowsSpec(st.rows, cid, ids);
  }

  /** Participants added within the limit leave their conversation sound. */
  lemma AddedSound(st: Store, cid: nat, ids: seq<string>, max: nat, isOverLimit: bool)
    requires Distinct(st.rows) && cid in st.conversations
    requires Sound(st.conversations[cid], UsersOf(st.rows, cid), max, isOverLimit)
    requires st.conversations[cid].kind == Private ==> OnlyThem(st.conversations[cid], ids)
    requires AddParticipants(st, cid, ids, false, max).Ok?
    ensures var st' := AddParticipants(st, cid, ids, false, max).value.0;
      Sound(st'.conversations[cid], UsersOf(st'.rows, cid), max, isOverLimit)
  {
    AddRowsSpec(st.rows, cid, ids);
  }

  lemma RemoveInv(w: World, cid: nat, ids: seq<string>, max: nat)
    requires Inv(w, max) && cid in w.store.conversations
    ensures Inv(w.(store := RemoveParticipants(w.store, cid, ids)), max)
  {
    RemoveRowsSpec(w.store.rows, cid, ids);
    var (rows, removed) := RemoveRows(w.store.rows, cid, ids);
    var c, us, left := w.store.conversations[cid], UsersOf(w.store.rows, cid), UsersOf(rows, cid);
    assert Sound(c, us, max, cid in w.overLimit);
    if left == [] {
      forall x | x in rows ensures x.cid != cid {
        assert x.cid == cid ==> x.user in left;
      }
    } else {
      assert left[0] in left;
      var c' := RemoveParticipants(w.store, cid, ids).conversations[cid];
      assert c.kind == Channel && c.subscribers == Missing ==> us == [];
      assert Sound(c', left, max, cid in w.overLimit);
    }
  }

  lemma NoRowsYet(w: World, cid: nat, max: nat)
    requires Inv(w, max) && cid !in w.store.conversations
    ensures UsersOf(w.store.rows, cid) == []
  {
    SomebodyIn(UsersOf(w.store.rows, cid));
  }

  lemma SomebodyIn(us: seq<string>)
    ensures us != [] ==> exists u :: u in us
  {
    if us != [] {
      assert us[0] in us;
    }
  }

  lemma FirstRows(rows: seq<Row>, cid: nat, ids: seq<string>)
    requires Distinct(rows) && UsersOf(rows, cid) == []
    ensures var (r, added) := AddRows(rows, cid, ids);
      UsersOf(r, cid) == added && |added| <= |ids| && forall u :: u in added <==> u in ids
  {
    AddRowsSpec(rows, cid, ids);
    forall u ensures Row(cid, u) !in rows {
      assert u !in UsersOf(rows, cid);
    }
  }

  /** A new conversation is sound: with all its participants, or without any when they exceed the limit. */
  lemma CreatedSound(st: Store, cid: nat, c: Conversation, ids: seq<string>, max: nat)
    requires Distinct(st.rows) && UsersOf(st.rows, cid) == [] && ids != [] && c.owner in ids && c.subscribers == Missing
    requires c.kind == Private ==> OnlyThem(c, ids)
    ensures var (st', ok) := Create(st, cid, c, ids, max);
      && (ok <==> |ids| <= max)
      && Sound(st'.conversations[cid], UsersOf(st'.rows, cid), max, !ok)
      && (forall u :: u in UsersOf(st'.rows, cid) <==> ok && u in ids)
  {
    FirstRows(st.rows, cid, ids);
  }

  lemma CreateInv(w: World, cid: nat, c: Conversation, ids: seq<string>, max: nat)
    requires Inv(w, max) && cid !in w.store.conversations && ids != [] && c.owner in ids && c.subscribers == Missing
    requires c.kind == Private ==> OnlyThem(c, ids)
    ensures Inv(Created(w, cid, c, ids, max), max)
  {
    var w' := Created(w, cid, c, ids, max);
    NoRowsYet(w, cid, max);
    CreatedElsewhere(w.store, cid, c, ids, max);
    CreatedRecords(w.store, cid, c, ids, max);
    CreatedSound(w.store, cid, c, ids, max);
    forall other | other in w'.store.conversations && other != cid
      ensures Sound(w'.store.conversations[other], UsersOf(w'.store.rows, other), max, other in w'.overLimit)
    {
      assert UsersOf(w'.store.rows, other) == UsersOf(w.store.rows, other);
      assert Sound(w.store.conversations[other], UsersOf(w.store.rows, other), max, other in w.overLimit);
    }
  }

  /** A creation changes no other conversation's rows... */
  lemma CreatedElsewhere(st: Store, cid: nat, c: Conversation, ids: seq<string>, max: nat)
    requires Distinct(st.rows)
    ensures var rows := Create(st, cid, c, ids, max).0.rows;
      && Distinct(rows) && (forall x :: x in rows ==> x in st.rows || x.cid == cid)
      && (forall other: nat :: other != cid ==> UsersOf(rows, other) == UsersOf(st.rows, other))
  {
    AddRowsSpec(st.rows, cid, ids);
    assert Create(st, cid, c, ids, max).0.rows in {st.rows, AddRows(st.rows, cid, ids).0};
  }

  /** ...and no other conversation. */
  lemma CreatedRecords(st: Store, cid: nat, c: Conversation, ids: seq<string>, max: nat)
    ensures var conversations := Create(st, cid, c, ids, max).0.conversations;
      && conversations.Keys == st.conversations.Keys + {cid}
      && (forall other :: other in st.conversations && other != cid ==> conversations[other] == st.conversations[other])
  {
  }

  lemma CreatePrivateInv(w: World, cid: nat, owner: string, opponent: string, max: nat)
    requires Inv(w, max) && cid !in w.store.conversations
    ensures Inv(w.(store := Create(w.store, cid, Conversation(Private, owner, opponent, Missing), [owner, opponent], max).0), max)
  {
    var c := Conversation(Private, owner, opponent, Missing);
    CreateInv(w, cid, c, [owner, opponent], max);
    FlagIrrelevant(Created(w, cid, c, [owner, opponent], max), w.overLimit, cid, max);
  }

  /** Nothing is asked of a private conversation's owner. */
  lemma FlagIrrelevant(w: World, overLimit: set<nat>, cid: nat, max: nat)
    requires Inv(w, max) && cid in w.store.conversations && w.store.conversations[cid].kind == Private
    requires forall other :: other != cid ==> (other in overLimit <==> other in w.overLimit)
    ensures Inv(World(w.store, overLimit), max)
  {
    forall other | other in w.store.conversations
      ensures Sound(w.store.conversations[other], UsersOf(w.store.rows, other), max, other in overLimit)
    {
      assert Sound(w.store.conversations[other], UsersOf(w.store.rows, other), max, other in w.overLimit);
    }
  }

  lemma StepInv(w: World, e: Step, max: nat)
    requires Inv(w, max) && WellFormed(w, e)
    ensures Inv(Apply(w, e, max), max)
  {
    var st := w.store;
    match e
    case CreatePrivate(cid, owner, opponent, existing) =>
      if owner != opponent {
        if existing.Some? {
          AddInv(w, existing.value, [st.conversations[existing.value].owner, st.conversations[existing.value].opponent], max);
        } else {
          CreatePrivateInv(w, cid, owner, opponent, max);
        }
      }
    case CreateGroup(cid, owner, ids) => CreateInv(w, cid, Conversation(Group, owner, "", Missing), WithOwner(ids, owner), max);
    case CreateChannel(cid, owner, ids) => CreateInv(w, cid, Conversation(Channel, owner, "", Missing), WithOwner(ids, owner), max);
    case Edit(cid, add, remove) =>
      if cid in st.conversations && st.conversations[cid].kind != Private && AddParticipants(st, cid, add, false, max).Ok? {
        AddInv(w, cid, add, max);
        RemoveInv(Added(w, AddParticipants(st, cid, add, false, max)), cid, remove, max);
      }
    case Subscribe(cid, user) => if cid in st.conversations && st.conversations[cid].kind == Channel { AddInv(w, cid, [user], max); }
    case Unsubscribe(cid, user) => if cid in st.conversations { RemoveInv(w, cid, [user], max); }
    case Leave(cid, user) => if cid in st.conversations { RemoveInv(w, cid, [user], max); }
  }

  /** Over every sequential run: one row per conversation and user, rows within the limit, a channel's count
      equal to its rows, a private conversation's rows within its two users, and the owner of every group and
      channel among its participants unless its creation went over the limit. */
  lemma {:induction false} RunInv(es: seq<Step>, max: nat)
    requires WellFormedRun(es, max)
    ensures Inv(Run(EMPTY_WORLD, es, max), max)
  {
    if es != [] {
      RunInv(es[..|es| - 1], max);
      StepInv(Run(EMPTY_WORLD, es[..|es| - 1], max), es[|es| - 1], max);
    }
  }

  // ---- ownership, and when a creation breaks it ----

  /** The owner of every group and channel is one of its participants. */
  ghost predicate Owners(w: World) {
    forall cid :: cid in w.store.conversations && w.store.conversations[cid].kind != Private ==>
      w.store.conversations[cid].owner in UsersOf(w.store.rows, cid)
  }

  /** What a caller of a group or channel creation can check: with the owner, the participants fit the limit (a
      group of its owner alone is rejected). */
  predicate Fits(e: Step, max: nat) {
    match e
    case CreateGroup(_, owner, ids) => |WithOwner(ids, owner)| <= max || |WithOwner(ids, owner)| == 1
    case CreateChannel(_, owner, ids) => |WithOwner(ids, owner)| <= max
    case _ => true
  }

  /** After a group or channel creation that is not rejected, the owner is a participant if and only if the
      participants, with the owner, fit the limit. */
  lemma CreatedOwnerIff(w: World, e: Step, max: nat)
    requires Inv(w, max) && WellFormed(w, e) && (e.CreateGroup? || e.CreateChannel?)
    requires e.CreateGroup? ==> |WithOwner(e.ids, e.owner)| != 1
    ensures var w' := Apply(w, e, max);
      && e.cid in w'.store.conversations && w'.store.conversations[e.cid].owner == e.owner
      && (e.owner in UsersOf(w'.store.rows, e.cid) <==> |WithOwner(e.ids, e.owner)| <= max)
  {
    NoRowsYet(w, e.cid, max);
    var c := Conversation(if e.CreateGroup? then Group else Channel, e.owner, "", Missing);
    CreatedSound(w.store, e.cid, c, WithOwner(e.ids, e.owner), max);
  }

  lemma OwnersFromInv(w: World, max: nat)
    requires Inv(w, max) && w.overLimit == {}
    ensures Owners(w)
  {
    forall cid | cid in w.store.conversations && w.store.conversations[cid].kind != Private
      ensures w.store.conversations[cid].owner in UsersOf(w.store.rows, cid)
    {
      assert Sound(w.store.conversations[cid], UsersOf(w.store.rows, cid), max, cid in w.overLimit);
    }
  }

  lemma FitsKeeps(w: World, e: Step, max: nat)
    requires Fits(e, max) && w.overLimit == {}
    ensures Apply(w, e, max).overLimit == {}
  {
  }

  lemma StepOwnersIff(w: World, e: Step, max: nat)
    requires Inv(w, max) && WellFormed(w, e) && w.overLimit == {}
    ensures Owners(Apply(w, e, max)) <==> Fits(e, max)
    ensures Fits(e, max) ==> Apply(w, e, max).overLimit == {}
  {
    if Fits(e, max) {
      StepInv(w, e, max);
      FitsKeeps(w, e, max);
      OwnersFromInv(Apply(w, e, max), max);
    } else {
      CreatedOwnerIff(w, e, max);
      CreatedKind(w, e, max);
    }
  }

  lemma CreatedKind(w: World, e: Step, max: nat)
    requires !Fits(e, max)
    ensures e.cid in Apply(w, e, max).store.conversations && Apply(w, e, max).store.conversations[e.cid].kind != Private
  {
  }

  ghost predicate OwnersThroughout(es: seq<Step>, max: nat) {
    Owners(Run(EMPTY_WORLD, es, max)) && (es != [] ==> OwnersThroughout(es[..|es| - 1], max))
  }

  ghost predicate AllFit(es: seq<Step>, max: nat) {
    forall e :: e in es ==> Fits(e, max)
  }

  /** Over every sequential run: the owner of every group and channel is one of its participants in all states of
      the run if and only if every creation in it fits the limit. */
  lemma {:induction false} RunOwnersIff(es: seq<Step>, max: nat)
    requires WellFormedRun(es, max)
    ensures OwnersThroughout(es, max) <==> AllFit(es, max)
    ensures AllFit(es, max) ==> Run(EMPTY_WORLD, es, max).overLimit == {}
  {
    if es != [] {
      var front, e := es[..|es| - 1], es[|es| - 1];
      assert es == front + [e];
      RunOwnersIff(front, max);
      RunInv(front, max);
      assert AllFit(es, max) <==> AllFit(front, max) && Fits(e, max);
      if AllFit(front, max) {
        StepOwnersIff(Run(EMPTY_WORLD, front, max), e, max);
      }
    }
  }

  // ---- what each operation does to the set of participants ----

  /** The participants of a conversation, as the rows say. */
  ghost function Participants(rows: seq<Row>, cid: nat): set<string> {
    set x | x in rows && x.cid == cid :: x.user
  }

  lemma {:induction false} UsersCard(rows: seq<Row>, cid: nat)
    requires Distinct(rows)
    ensures |UsersOf(rows, cid)| == |Participants(rows, cid)|
  {
    if rows == [] {
      assert Participants(rows, cid) == {};
    } else {
      var front, last := rows[..|rows| - 1], rows[|rows| - 1];
      assert rows == front + [last] && last !in front;
      UsersCard(front, cid);
      if last.cid == cid {
        assert last.user !in Participants(front, cid);
        assert Participants(rows, cid) == Participants(front, cid) + {last.user};
      } else {
        assert Participants(rows, cid) == Participants(front, cid);
      }
    }
  }

  /** For every kind of conversation: participants can be added if and only if the ids named, together with the
      participants there are, do not exceed the limit; the ids returned are then exactly the named ones that did not
      take part. */
  lemma AddSucceedsIff(w: World, cid: nat, ids: seq<string>, max: nat)
    requires Inv(w, max) && cid in w.store.conversations
    ensures var r := AddParticipants(w.store, cid, ids, false, max);
      && (r.Ok? <==> |ids| + |Participants(w.store.rows, cid)| <= max)
      && (r.Ok? ==> forall u :: u in r.value.1 <==> u in ids && u !in Participants(w.store.rows, cid))
      && (r.Ok? ==> |r.value.1| + |Participants(w.store.rows, cid)| == |Participants(r.value.0.rows, cid)|)
  {
    UsersCard(w.store.rows, cid);
    AddRowsSpec(w.store.rows, cid, ids);
    UsersCard(AddRows(w.store.rows, cid, ids).0, cid);
    assert Sound(w.store.conversations[cid], UsersOf(w.store.rows, cid), max, cid in w.overLimit);
  }

  /** The owner after a removal that leaves somebody: the first participant left if the owner was a participant, was
      named, and the conversation is not private; otherwise the same. */
  lemma RemovalOwner(w: World, cid: nat, ids: seq<string>, max: nat)
    requires Inv(w, max) && cid in w.store.conversations && cid in RemoveParticipants(w.store, cid, ids).conversations
    ensures var c, st' := w.store.conversations[cid], RemoveParticipants(w.store, cid, ids);
      && UsersOf(st'.rows, cid) != []
      && st'.conversations[cid].kind == c.kind
      && (st'.conversations[cid].owner ==
            if c.kind != Private && c.owner in ids && c.owner in Participants(w.store.rows, cid)
            then UsersOf(st'.rows, cid)[0] else c.owner)
  {
    RemoveRowsSpec(w.store.rows, cid, ids);
  }

  ghost function RowsFor(cid: nat, us: set<string>): set<Row> {
    set u | u in us :: Row(cid, u)
  }

  /** The participants a step adds, as a reader of the interface would say it: those named, with the owner of a new
      conversation, if the operation is for such a conversation and they fit. */
  ghost function Joining(w: World, e: Step, max: nat): set<Row> {
    var rows, cs := w.store.rows, w.store.conversations;
    match e
    case CreatePrivate(cid, owner, opponent, existing) =>
      var id := if existing.Some? then existing.value else cid;
      if owner != opponent && 2 + |Participants(rows, id)| <= max then RowsFor(id, {owner, opponent}) else {}
    case CreateGroup(cid, owner, ids) =>
      if 1 < |WithOwner(ids, owner)| <= max then RowsFor(cid, SetOf(ids) + {owner}) else {}
    case CreateChannel(cid, owner, ids) =>
      if |WithOwner(ids, owner)| <= max then RowsFor(cid, SetOf(ids) + {owner}) else {}
    case Edit(cid, add, _) =>
      if cid in cs && cs[cid].kind != Private && |add| + |Participants(rows, cid)| <= max then RowsFor(cid, SetOf(add)) else {}
    case Subscribe(cid, user) =>
      if cid in cs && cs[cid].kind == Channel && 1 + |Participants(rows, cid)| <= max then {Row(cid, user)} else {}
    case _ => {}
  }

  /** And those it takes away: an edit that fails to add does not remove either. */
  ghost function Leaving(w: World, e: Step, max: nat): set<Row> {
    var rows, cs := w.store.rows, w.store.conversations;
    match e
    case Edit(cid, add, remove) =>
      if cid in cs && cs[cid].kind != Private && |add| + |Participants(rows, cid)| <= max then RowsFor(cid, SetOf(remove)) else {}
    case Unsubscribe(cid, user) => if cid in cs && cs[cid].kind == Channel then {Row(cid, user)} else {}
    case Leave(cid, user) => {Row(cid, user)}
    case _ => {}
  }

  lemma AddedRows(w: World, cid: nat, ids: seq<string>, max: nat)
    requires Inv(w, max) && cid in w.store.conversations
    ensures SetOf(Added(w, AddParticipants(w.store, cid, ids, false, max)).store.rows) ==
            SetOf(w.store.rows) + if |ids| + |Participants(w.store.rows, cid)| <= max then RowsFor(cid, SetOf(ids)) else {}
  {
    AddSucceedsIff(w, cid, ids, max);
    AddRowsSpec(w.store.rows, cid, ids);
    forall x ensures x in SetOf(AddRows(w.store.rows, cid, ids).0) <==> x in SetOf(w.store.rows) + RowsFor(cid, SetOf(ids)) {}
  }

  lemma RemovedRows(st: Store, cid: nat, ids: seq<string>)
    requires Distinct(st.rows) && cid in st.conversations
    ensures SetOf(RemoveParticipants(st, cid, ids).rows) == SetOf(st.rows) - RowsFor(cid, SetOf(ids))
  {
    RemoveRowsSpec(st.rows, cid, ids);
  }

  lemma CreatedSet(w: World, cid: nat, c: Conversation, ids: seq<string>, max: nat)
    requires Inv(w, max) && ids != []
    ensures SetOf(Create(w.store, cid, c, ids, max).0.rows) == SetOf(w.store.rows) + if |ids| <= max then RowsFor(cid, SetOf(ids)) else {}
  {
    AddRowsSpec(w.store.rows, cid, ids);
    forall x ensures x in SetOf(AddRows(w.store.rows, cid, ids).0) <==> x in SetOf(w.store.rows) + RowsFor(cid, SetOf(ids)) {}
  }

  lemma WithOwnerSet(ids: seq<string>, owner: string)
    ensures SetOf(WithOwner(ids, owner)) == SetOf(ids) + {owner}
  {
    SetOfSnoc(ids, owner);
    assert owner in ids ==> owner in SetOf(ids);
  }

  /** Every step changes the participants of all conversations by exactly those joining and leaving. */
  lemma StepRows(w: World, e: Step, max: nat)
    requires Inv(w, max) && WellFormed(w, e)
    ensures SetOf(Apply(w, e, max).store.rows) == SetOf(w.store.rows) + Joining(w, e, max) - Leaving(w, e, max)
  {
    var st := w.store;
    match e
    case CreatePrivate(cid, owner, opponent, existing) => CreatePrivateRows(w, cid, owner, opponent, existing, max);
    case CreateGroup(cid, owner, ids) =>
      WithOwnerSet(ids, owner);
      CreatedSet(w, cid, Conversation(Group, owner, "", Missing), WithOwner(ids, owner), max);
    case CreateChannel(cid, owner, ids) =>
      WithOwnerSet(ids, owner);
      CreatedSet(w, cid, Conversation(Channel, owner, "", Missing), WithOwner(ids, owner), max);
    case Edit(cid, add, remove) =>
      if cid in st.conversations && st.conversations[cid].kind != Private {
        EditRows(w, cid, add, remove, max);
      }
    case Subscribe(cid, user) =>
      if cid in st.conversations && st.conversations[cid].kind == Channel {
        AddedRows(w, cid, [user], max);
        assert RowsFor(cid, SetOf([user])) == {Row(cid, user)};
      }
    case Unsubscribe(cid, user) => OneRemoved(w, cid, user, max);
    case Leave(cid, user) => OneRemoved(w, cid, user, max);
  }

  lemma OneRemoved(w: World, cid: nat, user: string, max: nat)
    requires Inv(w, max)
    ensures cid in w.store.conversations ==>
      SetOf(RemoveParticipants(w.store, cid, [user]).rows) == SetOf(w.store.rows) - {Row(cid, user)}
    ensures cid !in w.store.conversations ==> Row(cid, user) !in SetOf(w.store.rows)
  {
    if cid in w.store.conversations {
      RemovedRows(w.store, cid, [user]);
      assert RowsFor(cid, SetOf([user])) == {Row(cid, user)};
    }
  }

  lemma EditRows(w: World, cid: nat, add: seq<string>, remove: seq<string>, max: nat)
    requires Inv(w, max) && cid in w.store.conversations && w.store.conversations[cid].kind != Private
    ensures SetOf(UpdateParticipants(w.store, cid, add, remove, max).rows) ==
            if |add| + |Participants(w.store.rows, cid)| <= max
            then SetOf(w.store.rows) + RowsFor(cid, SetOf(add)) - RowsFor(cid, SetOf(remove)) else SetOf(w.store.rows)
  {
    AddSucceedsIff(w, cid, add, max);
    AddedRows(w, cid, add, max);
    AddInv(w, cid, add, max);
    var r := AddParticipants(w.store, cid, add, false, max);
    if r.Ok? {
      RemovedRows(r.value.0, cid, remove);
    }
  }

  lemma RestoredRows(w: World, id: nat, owner: string, opponent: string, max: nat)
    requires Inv(w, max) && id in w.store.conversations
    requires {w.store.conversations[id].owner, w.store.conversations[id].opponent} == {owner, opponent}
    ensures var c := w.store.conversations[id];
      SetOf(Added(w, AddParticipants(w.store, id, [c.owner, c.opponent], false, max)).store.rows) ==
        SetOf(w.store.rows) + if 2 + |Participants(w.store.rows, id)| <= max then RowsFor(id, {owner, opponent}) else {}
  {
    var c := w.store.conversations[id];
    AddedRows(w, id, [c.owner, c.opponent], max);
    assert SetOf([c.owner, c.opponent]) == {c.owner, c.opponent};
  }

  lemma NewPrivateRows(w: World, cid: nat, owner: string, opponent: string, max: nat)
    requires Inv(w, max) && cid !in w.store.conversations
    ensures SetOf(Create(w.store, cid, Conversation(Private, owner, opponent, Missing), [owner, opponent], max).0.rows) ==
            SetOf(w.store.rows) + if 2 + |Participants(w.store.rows, cid)| <= max then RowsFor(cid, {owner, opponent}) else {}
  {
    NoRowsYet(w, cid, max);
    UsersCard(w.store.rows, cid);
    CreatedSet(w, cid, Conversation(Private, owner, opponent, Missing), [owner, opponent], max);
    assert SetOf([owner, opponent]) == {owner, opponent};
  }

  lemma CreatePrivateRows(w: World, cid: nat, owner: string, opponent: string, existing: Option<nat>, max: nat)
    requires Inv(w, max) && WellFormed(w, CreatePrivate(cid, owner, opponent, existing))
    ensures var e := CreatePrivate(cid, owner, opponent, existing);
      SetOf(Apply(w, e, max).store.rows) == SetOf(w.store.rows) + Joining(w, e, max)
  {
    if owner != opponent {
      if existing.Some? {
        RestoredRows(w, existing.value, owner, opponent, max);
      } else {
        NewPrivateRows(w, cid, owner, opponent, max);
      }
    }
  }

  /** A removal deletes the conversation exactly when it leaves no participant; otherwise it keeps exactly the
      others. */
  lemma RemovalDeletesIff(w: World, cid: nat, ids: seq<string>, max: nat)
    requires Inv(w, max) && cid in w.store.conversations
    ensures var st' := RemoveParticipants(w.store, cid, ids);
      && (cid !in st'.conversations <==> forall u :: Row(cid, u) in w.store.rows ==> u in ids)
      && (forall u :: Row(cid, u) in st'.rows <==> Row(cid, u) in w.store.rows && u !in ids)
  {
    RemoveRowsSpec(w.store.rows, cid, ids);
    var (rows, _) := RemoveRows(w.store.rows, cid, ids);
    if UsersOf(rows, cid) != [] {
      assert Row(cid, UsersOf(rows, cid)[0]) in rows;
    } else {
      forall u | Row(cid, u) in w.store.rows ensures u in ids {
        assert Row(cid, u) in rows ==> u in UsersOf(rows, cid);
      }
    }
  }

  /** Restoring a private conversation succeeds exactly when two more participants would fit; it then has both
      of its users, and reports exactly those that were missing. */
  lemma RestoreIff(w: World, cid: nat, max: nat)
    requires Inv(w, max) && cid in w.store.conversations && w.store.conversations[cid].kind == Private
    ensures var c := w.store.conversations[cid];
            var r := AddParticipants(w.store, cid, [c.owner, c.opponent], false, max);
      && (r.Ok? <==> |UsersOf(w.store.rows, cid)| + 2 <= max)
      && (r.Ok? ==>
            && (forall u :: Row(cid, u) in r.value.0.rows <==> u in {c.owner, c.opponent})
            && (forall u :: u in r.value.1 <==> u in {c.owner, c.opponent} && Row(cid, u) !in w.store.rows))
  {
    var c := w.store.conversations[cid];
    AddRowsSpec(w.store.rows, cid, [c.owner, c.opponent]);
    forall u | Row(cid, u) in w.store.rows ensures u in {c.owner, c.opponent} {
      assert u in UsersOf(w.store.rows, cid);
    }
  }

  /** A channel created over the limit is stored without participants; the first subscriber then takes part in
      a channel whose owner does not. */
  lemma OverLimitOwnerless(w: World, cid: nat, owner: string, ids: seq<string>, user: string, max: nat)
    requires Inv(w, max) && cid !in w.store.conversations && cid !in w.overLimit
    requires |WithOwner(ids, owner)| > max >= 1 && user != owner
    ensures var w' := Apply(Apply(w, CreateChannel(cid, owner, ids), max), Subscribe(cid, user), max);
      && cid in w'.overLimit && w'.store.conversations[cid].owner == owner
      && UsersOf(w'.store.rows, cid) == [user]
  {
    NoRowsYet(w, cid, max);
    var c := Conversation(Channel, owner, "", Missing);
    var w1 := Apply(w, CreateChannel(cid, owner, ids), max);
    assert w1 == World(Store(w.store.conversations[cid := c], w.store.rows), w.overLimit + {cid});
    AddOneRow(w.store.rows, cid, user);
    var r := AddParticipants(w1.store, cid, [user], false, max);
    assert r == Ok((Store(w1.store.conversations[cid := c.(subscribers := Number(1))], w.store.rows + [Row(cid, user)]), [user]));
  }

  lemma AddOneRow(rows: seq<Row>, cid: nat, user: string)
    requires UsersOf(rows, cid) == []
    ensures AddRows(rows, cid, [user]) == (rows + [Row(cid, user)], [user])
    ensures UsersOf(rows + [Row(cid, user)], cid) == [user]
  {
    var one := [user];
    assert one[..|one| - 1] == [] && one[|one| - 1] == user && Row(cid, user) !in rows;
    assert AddRows(rows, cid, one[..|one| - 1]) == (rows, []);
    var none: seq<string> := [];
    assert none + [user] == [user];
    assert AddRows(rows, cid, one).0 == rows + [Row(cid, user)] && AddRows(rows, cid, one).1 == none + [user];
    assert (rows + [Row(cid, user)])[..|rows|] == rows;
  }

  // ---- what the calls mean for the rows ----

  /** Distinct rows, which differ in one conversation only: some users added, then some removed. */
  ghost predicate UpdatedRows(before: seq<Row>, after: seq<Row>, cid: nat, add: seq<string>, remove: seq<string>) {
    && Distinct(after)
    && forall x :: x in after <==> (x in before || (x.cid == cid && x.user in add)) && !(x.cid == cid && x.user in remove)
  }

  /** A channel's stored count is right. */
  predicate Counted(st: Store, cid: nat) {
    cid in st.conversations && st.conversations[cid].kind == Channel ==>
      CountOf(st.conversations[cid].subscribers) == |UsersOf(st.rows, cid)|
  }

  lemma AddRowsEffect(rows: seq<Row>, cid: nat, ids: seq<string>)
    ensures Distinct(rows) ==> UpdatedRows(rows, AddRows(rows, cid, ids).0, cid, ids, []) && UpdatedRows(rows, rows, cid, [], [])
    ensures Distinct(rows) ==> forall u :: u in AddRows(rows, cid, ids).1 <==> u in ids && Row(cid, u) !in rows
  {
    if Distinct(rows) {
      AddRowsSpec(rows, cid, ids);
    }
  }

  lemma UpdateEffect(st: Store, cid: nat, add: seq<string>, remove: seq<string>, max: nat)
    requires cid in st.conversations
    ensures var st' := UpdateParticipants(st, cid, add, remove, max);
      |add| + CurrentCount(st, cid, false) <= max && Distinct(st.rows) ==>
        && UpdatedRows(st.rows, st'.rows, cid, add, remove)
        && (cid in st'.conversations <==> exists u :: Row(cid, u) in st'.rows)
  {
    if |add| + CurrentCount(st, cid, false) <= max && Distinct(st.rows) {
      AddRowsSpec(st.rows, cid, add);
      var rows := AddRows(st.rows, cid, add).0;
      RemoveRowsSpec(rows, cid, remove);
      var left := UsersOf(RemoveRows(rows, cid, remove).0, cid);
      SomebodyIn(left);
    }
  }

  // ---- the service itself ----

  class ConversationService {
    const maxParticipants: nat
    var conversations: map<nat, Conversation>
    var rows: seq<Row>

    constructor (maxParticipants: nat)
      ensures this.maxParticipants == maxParticipants && View() == Store(map[], [])
    {
      this.maxParticipants := maxParticipants;
      conversations, rows := map[], [];
    }

    ghost function View(): Store
      reads this
    {
      Store(conversations, rows)
    }

    method AddNoExistedParticipants(cid: nat, ids: seq<string>) returns (addedIds: seq<string>)
      modifies this`rows
      ensures (rows, addedIds) == AddRows(old(rows), cid, ids)
    {
      addedIds := [];
      for i := 0 to |ids|
        invariant (rows, addedIds) == AddRows(old(rows), cid, ids[..i])
      {
        assert ids[..i + 1][..i] == ids[..i];
        if Row(cid, ids[i]) !in rows {
          rows := rows + [Row(cid, ids[i])];
          addedIds := addedIds + [ids[i]];
        }
      }
      assert ids[..|ids|] == ids;
    }

    method RemoveExistedParticipants(cid: nat, ids: seq<string>) returns (removedIds: seq<string>)
      modifies this`rows
      ensures (rows, removedIds) == RemoveRows(old(rows), cid, ids)
    {
      removedIds := [];
      for i := 0 to |ids|
        invariant (rows, removedIds) == RemoveRows(old(rows), cid, ids[..i])
      {
        assert ids[..i + 1][..i] == ids[..i];
        if Row(cid, ids[i]) in rows {
          rows := Without(rows, Row(cid, ids[i]));
          removedIds := removedIds + [ids[i]];
        }
      }
      assert ids[..|ids|] == ids;
    }

    method AddParticipantsTo(cid: nat, ids: seq<string>, isEmpty: bool) returns (result: Result<seq<string>>)
      requires cid in conversations
      modifies this
      ensures match AddParticipants(old(View()), cid, ids, isEmpty, maxParticipants)
              case LimitExceeded => result == LimitExceeded && View() == old(View())
              case Ok((st, added)) => result == Ok(added) && View() == st
      ensures Counted(old(View()), cid) && !isEmpty ==> (result.Ok? <==> |ids| + |UsersOf(old(rows), cid)| <= maxParticipants)
      ensures isEmpty ==> (result.Ok? <==> |ids| <= maxParticipants)
      ensures result.Ok? && Distinct(old(rows)) ==> UpdatedRows(old(rows), rows, cid, ids, [])
      ensures result.Ok? && Distinct(old(rows)) ==> forall u :: u in result.value <==> u in ids && Row(cid, u) !in old(rows)
    {
      AddRowsEffect(rows, cid, ids);
      var c := conversations[cid];
      var current := if isEmpty then 0
                     else if c.kind == Channel then CountOf(c.subscribers)
                     else |UsersOf(rows, cid)|;
      if |ids| + current > maxParticipants {
        return LimitExceeded;
      }
      var added := ids;
      if |ids| != 0 {
        added := AddNoExistedParticipants(cid, ids);
      }
      if c.kind == Channel {
        conversations := conversations[cid := c.(subscribers := Number(|added| + current))];
      }
      result := Ok(added);
    }

    /** Returns the ids that were participants, the new owner if there is one, and whether the conversation is gone. */
    method RemoveParticipantsFrom(cid: nat, ids: seq<string>)
      returns (removedIds: seq<string>, newOwner: Option<string>, isEmptyAndDeleted: bool)
      requires cid in conversations
      modifies this
      ensures View() == RemoveParticipants(old(View()), cid, ids)
      ensures removedIds == RemoveRows(old(rows), cid, ids).1
      ensures isEmptyAndDeleted <==> cid !in conversations
      ensures newOwner.Some? ==> cid in conversations && conversations[cid].owner == newOwner.value
      ensures newOwner == None && cid in conversations ==> conversations[cid].owner == old(conversations)[cid].owner
      ensures newOwner.Some? <==> cid in conversations && conversations[cid].kind != Private && old(conversations)[cid].owner in removedIds
      ensures newOwner.Some? ==> UsersOf(rows, cid) != [] && newOwner.value == UsersOf(rows, cid)[0]
    {
      newOwner, isEmptyAndDeleted := None, false;
      removedIds := RemoveExistedParticipants(cid, ids);
      var left := UsersOf(rows, cid);
      if left == [] {
        conversations := conversations - {cid};
        return removedIds, None, true;
      }
      var c := conversations[cid];
      if c.owner in removedIds && c.kind != Private {
        newOwner := Some(left[0]);
        conversations := conversations[cid := c.(owner := left[0])];
      }
      if c.kind == Channel {
        var count := if c.subscribers.Number? then Number(c.subscribers.value - |removedIds|) else NotANumber;
        conversations := conversations[cid := conversations[cid].(subscribers := count)];
      }
    }

    /** Within the limit: the conversation ends with its old participants and the added ones, less the removed
        ones, and is gone if that is nobody; no other conversation's rows change. */
    method UpdateParticipantsOf(cid: nat, add: seq<string>, remove: seq<string>) returns (isOk: bool)
      requires cid in conversations
      modifies this
      ensures View() == UpdateParticipants(old(View()), cid, add, remove, maxParticipants)
      ensures isOk <==> |add| + CurrentCount(old(View()), cid, false) <= maxParticipants
      ensures Counted(old(View()), cid) ==> (isOk <==> |add| + |UsersOf(old(rows), cid)| <= maxParticipants)
      ensures !isOk ==> View() == old(View())
      ensures isOk && Distinct(old(rows)) ==> UpdatedRows(old(rows), rows, cid, add, remove)
      ensures isOk && Distinct(old(rows)) ==> (cid in conversations <==> exists u :: Row(cid, u) in rows)
    {
      UpdateEffect(View(), cid, add, remove, maxParticipants);
      var result := AddParticipantsTo(cid, add, false);
      if result == LimitExceeded {
        return false;
      }
      var _, _, _ := RemoveParticipantsFrom(cid, remove);
      isOk := true;
    }

    /** The record is there either way; its participants only if they fit the limit, and then all of them. */
    method CreateConversation(cid: nat, c: Conversation, ids: seq<string>) returns (isOk: bool)
      modifies this
      ensures (View(), isOk) == Create(old(View()), cid, c, ids, maxParticipants)
      ensures isOk <==> |ids| <= maxParticipants
      ensures cid in conversations && conversations[cid].owner == c.owner
      ensures Distinct(old(rows)) ==> UpdatedRows(old(rows), rows, cid, if isOk then ids else [], [])
    {
      AddRowsEffect(rows, cid, ids);
      conversations := conversations[cid := c];
      isOk := true;
      if |ids| != 0 {
        var result := AddParticipantsTo(cid, ids, true);
        isOk := result.Ok?;
      }
    }
  }
}
