/** Message reactions: the collection of (message, user, reaction) rows, its updates with their flags, and the
    two-stage grouped aggregation shown with the messages. */
module Reactions {
  import opened Text

  type CodeUnit = n: int | 0 <= n < 0x10000

  /** A string as JavaScript compares it: by code units. */
  type Reaction = seq<CodeUnit>

  datatype Row = Row(mid: string, user: string, reaction: Reaction)

  // ---- updates ----

  datatype Flags = Flags(add: bool, remove: bool)

  /** A missing or empty reaction is falsy and leaves its half of the update out. */
  predicate Given(reaction: Option<Reaction>) {
    reaction.Some? && reaction.value != []
  }

  /** repositories/message_reaction/index.js:26-40: a row is inserted unless an equal one exists. */
  function Upserted(rows: seq<Row>, row: Row): (seq<Row>, bool) {
    if row in rows then (rows, false) else (rows + [row], true)
  }

  /** repositories/message_reaction/index.js:15-24: all equal rows are deleted. */
  function Removed(rows: seq<Row>, row: Row): (seq<Row>, bool) {
    var r := Without(rows, row);
    (r, |rows| - |r| > 0)
  }

  datatype Update = Update(mid: string, user: string, add: Option<Reaction>, remove: Option<Reaction>)

  function Updated(rows: seq<Row>, u: Update): (seq<Row>, Flags) {
    var (rows', added) := if Given(u.add) then Upserted(rows, Row(u.mid, u.user, u.add.value)) else (rows, false);
    var (rows'', removed) := if Given(u.remove) then Removed(rows', Row(u.mid, u.user, u.remove.value)) else (rows', false);
    (rows'', Flags(added, removed))
  }

  class MessageReactionRepository {
    var rows: seq<Row>

    /** No row is stored twice. */
    ghost predicate Valid()
      reads this
    {
      Distinct(rows)
    }

    constructor ()
      ensures Valid() && rows == []
    {
      rows := [];
    }

    method Upsert(row: Row) returns (created: bool)
      requires Valid()
      modifies this
      ensures Valid() && (rows, created) == Upserted(old(rows), row)
      ensures SetOf(rows) == SetOf(old(rows)) + {row}
      ensures created <==> SetOf(rows) != SetOf(old(rows))
    {
      UpsertedExact(rows, row);
      if row in rows {
        return false;
      }
      rows := rows + [row];
      created := true;
    }

    method Remove(row: Row) returns (removed: bool)
      requires Valid()
      modifies this
      ensures Valid() && (rows, removed) == Removed(old(rows), row)
      ensures SetOf(rows) == SetOf(old(rows)) - {row}
      ensures removed <==> SetOf(rows) != SetOf(old(rows))
    {
      RemovedExact(rows, row);
      var kept := Without(rows, row);
      var deletedCount := |rows| - |kept|;
      rows := kept;
      removed := deletedCount > 0;
    }

    method UpdateReactions(u: Update) returns (updated: Flags)
      requires Valid()
      modifies this
      ensures Valid() && (rows, updated) == Updated(old(rows), u)
      ensures SetOf(rows) == SetOf(old(rows)) + Half(u, u.add) - Half(u, u.remove)
      ensures updated.add <==> SetOf(old(rows)) + Half(u, u.add) != SetOf(old(rows))
      ensures updated.remove <==> SetOf(rows) != SetOf(old(rows)) + Half(u, u.add)
      ensures |rows| == |old(rows)| + Change(updated)
    {
      UpdateExact(rows, u);
      updated := Flags(false, false);
      if Given(u.add) {
        var added := Upsert(Row(u.mid, u.user, u.add.value));
        updated := updated.(add := added);
      }
      if Given(u.remove) {
        var removed := Remove(Row(u.mid, u.user, u.remove.value));
        updated := updated.(remove := removed);
      }
    }
  }

  lemma UpsertedExact(rows: seq<Row>, row: Row)
    requires Distinct(rows)
    ensures var (rows', created) := Upserted(rows, row);
      Distinct(rows') && SetOf(rows') == SetOf(rows) + {row} && (created <==> SetOf(rows') != SetOf(rows))
  {
    if row !in rows {
      DistinctSnoc(rows, row);
      SetOfSnoc(rows, row);
      assert row in SetOf(rows + [row]);
    }
  }

  lemma RemovedExact(rows: seq<Row>, row: Row)
    requires Distinct(rows)
    ensures var (rows', removed) := Removed(rows, row);
      Distinct(rows') && SetOf(rows') == SetOf(rows) - {row} && (removed <==> SetOf(rows') != SetOf(rows))
  {
    WithoutDistinct(rows, row);
    assert row in rows <==> row in SetOf(rows);
  }

  /** The row one half of an update is about, if it is given. */
  function Half(u: Update, reaction: Option<Reaction>): set<Row> {
    if Given(reaction) then {Row(u.mid, u.user, reaction.value)} else {}
  }

  /** On rows without repetition an update is set addition, then set difference; each flag says exactly
      whether its half changed the set; and the flags account for the number of rows. */
  lemma UpdateExact(rows: seq<Row>, u: Update)
    requires Distinct(rows)
    ensures Distinct(Updated(rows, u).0)
    ensures SetOf(Updated(rows, u).0) == SetOf(rows) + Half(u, u.add) - Half(u, u.remove)
    ensures Updated(rows, u).1.add <==> SetOf(rows) + Half(u, u.add) != SetOf(rows)
    ensures Updated(rows, u).1.remove <==>
            SetOf(rows) + Half(u, u.add) - Half(u, u.remove) != SetOf(rows) + Half(u, u.add)
    ensures |Updated(rows, u).0| == |rows| + Change(Updated(rows, u).1)
  {
    var added := if Given(u.add) then Upserted(rows, Row(u.mid, u.user, u.add.value)).0 else rows;
    if Given(u.add) {
      UpsertedExact(rows, Row(u.mid, u.user, u.add.value));
    }
    assert SetOf(added) == SetOf(rows) + Half(u, u.add);
    if Given(u.remove) {
      RemovedExact(added, Row(u.mid, u.user, u.remove.value));
      WithoutDistinct(added, Row(u.mid, u.user, u.remove.value));
    }
  }

  function Change(flags: Flags): int {
    (if flags.add then 1 else 0) - if flags.remove then 1 else 0
  }

  /** The collection after a run of updates from an empty one, and what the flags of the run add up to. */
  function Run(us: seq<Update>): (seq<Row>, int) {
    if us == [] then ([], 0)
    else
      var (rows, change) := Run(us[..|us| - 1]);
      var (rows', flags) := Updated(rows, us[|us| - 1]);
      (rows', change + Change(flags))
  }

  /** The last thing a run says about a row: whether its last mention removes it or adds it; removal comes second. */
  function Standing(us: seq<Update>, row: Row): bool {
    if us == [] then false
    else
      var u := us[|us| - 1];
      row !in Half(u, u.remove) && (row in Half(u, u.add) || Standing(us[..|us| - 1], row))
  }

  /** After every run the rows form a set: those whose last mention added them, as many as the flags say. */
  lemma {:induction false} RunExact(us: seq<Update>)
    ensures Distinct(Run(us).0)
    ensures forall row :: row in Run(us).0 <==> Standing(us, row)
    ensures |Run(us).0| == Run(us).1
    ensures forall row :: row in Run(us).0 ==> row.reaction != []
  {
    if us != [] {
      var front, u := us[..|us| - 1], us[|us| - 1];
      RunExact(front);
      var rows := Run(front).0;
      UpdateExact(rows, u);
      var rows' := Updated(rows, u).0;
      forall row: Row ensures row in Run(us).0 <==> Standing(us, row) {
        assert row in rows' <==> row in SetOf(rows');
        assert row in rows <==> row in SetOf(rows);
      }
    }
  }

  // ---- the aggregation pipeline ----

  /** What the first stage notes of a row: the reaction itself for the user's own, else an empty array. */
  datatype Mark = Own(reaction: Reaction) | Nothing

  datatype Key = Key(mid: string, reaction: Reaction)

  datatype Group = Group(count: nat, own: set<Mark>)

  function MarkOf(row: Row, user: Option<string>): Mark {
    if Some(row.user) == user then Own(row.reaction) else Nothing
  }

  /** `$match` */
  function Match(rows: seq<Row>, mids: set<string>): seq<Row> {
    if rows == [] then []
    else
      var front, last := Match(rows[..|rows| - 1], mids), rows[|rows| - 1];
      if last.mid in mids then front + [last] else front
  }

  /** The first `$group`: by message and reaction. */
  function CountReactions(rows: seq<Row>, user: Option<string>): map<Key, Group> {
    if rows == [] then map[]
    else
      var groups, last := CountReactions(rows[..|rows| - 1], user), rows[|rows| - 1];
      var key := Key(last.mid, last.reaction);
      var g := if key in groups then groups[key] else Group(0, {});
      groups[key := Group(g.count + 1, g.own + {MarkOf(last, user)})]
  }

  /** An array that holds a set's elements in some order: what `$addToSet` leaves. */
  ghost predicate Lists<T(!new)>(xs: seq<T>, s: set<T>) {
    Distinct(xs) && forall x :: x in xs <==> x in s
  }

  /** A document between the stages. */
  datatype Doc = Doc(key: Key, count: nat, own: seq<Mark>)

  /** The documents are the groups, in some order, each with its marks in some order. */
  ghost predicate Stream(docs: seq<Doc>, groups: map<Key, Group>) {
    && (forall i, j :: 0 <= i < j < |docs| ==> docs[i].key != docs[j].key)
    && (forall k :: k in groups ==> exists d :: d in docs && d.key == k)
    && forall d :: d in docs ==>
         d.key in groups && d.count == groups[d.key].count && Lists(d.own, groups[d.key].own)
  }

  datatype Total = Total(count: nat, reaction: Reaction)

  datatype Accumulated = Accumulated(total: set<Total>, own: set<seq<Mark>>)

  /** The second `$group`: by message. */
  function Accumulate(docs: seq<Doc>): map<string, Accumulated> {
    if docs == [] then map[]
    else
      var acc, last := Accumulate(docs[..|docs| - 1]), docs[|docs| - 1];
      var a := if last.key.mid in acc then acc[last.key.mid] else Accumulated({}, {});
      acc[last.key.mid := Accumulated(a.total + {Total(last.count, last.key.reaction)}, a.own + {last.own})]
  }

  /** `total.reduce(...)`: a later entry for a reaction replaces an earlier one. */
  function Reduce(totals: seq<Total>): map<Reaction, nat> {
    if totals == [] then map[]
    else Reduce(totals[..|totals| - 1])[totals[|totals| - 1].reaction := totals[|totals| - 1].count]
  }

  /** The reactions in an array of marks: empty arrays vanish when it is flattened. */
  function OwnIn(marks: seq<Mark>): seq<Reaction> {
    if marks == [] then []
    else OwnIn(marks[..|marks| - 1]) + if marks[|marks| - 1].Own? then [marks[|marks| - 1].reaction] else []
  }

  /** `own.flat().flat()` */
  function Flatten(owns: seq<seq<Mark>>): seq<Reaction> {
    if owns == [] then [] else Flatten(owns[..|owns| - 1]) + OwnIn(owns[|owns| - 1])
  }

  /** The order of `sort()` on strings. */
  predicate AtMost(a: Reaction, b: Reaction) {
    a == [] || (b != [] && (a[0] < b[0] || (a[0] == b[0] && AtMost(a[1..], b[1..]))))
  }

  function Insert(x: Reaction, sorted: seq<Reaction>): seq<Reaction> {
    if sorted == [] || AtMost(x, sorted[0]) then [x] + sorted else [sorted[0]] + Insert(x, sorted[1..])
  }

  function Sort(xs: seq<Reaction>): seq<Reaction> {
    if xs == [] then [] else Insert(xs[0], Sort(xs[1..]))
  }

  datatype Summary = Summary(own: seq<Reaction>, total: map<Reaction, nat>)

  /** repositories/message_reaction/index.js:70-83 for one message: without a user there are no own reactions. */
  function Summarise(user: Option<string>, totals: seq<Total>, owns: seq<seq<Mark>>): Summary {
    Summary(if user.Some? then Sort(Flatten(owns)) else [], Reduce(totals))
  }

  /** A result of the whole pipeline, whatever orders the database lists groups and sets in. */
  ghost predicate Aggregated(rows: seq<Row>, mids: set<string>, user: Option<string>, result: map<string, Summary>) {
    exists docs :: Stream(docs, CountReactions(Match(rows, mids), user)) && Mapped(docs, user, result)
  }

  ghost predicate Mapped(docs: seq<Doc>, user: Option<string>, result: map<string, Summary>) {
    && (forall mid :: mid in result <==> mid in Accumulate(docs))
    && forall mid :: mid in result ==>
         exists totals, owns :: Listed(Accumulate(docs)[mid], totals, owns) && result[mid] == Summarise(user, totals, owns)
  }

  ghost predicate Listed(acc: Accumulated, totals: seq<Total>, owns: seq<seq<Mark>>) {
    Lists(totals, acc.total) && Lists(owns, acc.own)
  }

  // ---- what it computes ----

  /** How many rows a message has with a reaction. */
  function CountOf(rows: seq<Row>, key: Key): nat {
    if rows == [] then 0
    else
      var last := rows[|rows| - 1];
      CountOf(rows[..|rows| - 1], key) + if Key(last.mid, last.reaction) == key then 1 else 0
  }

  lemma CountOneMore(rows: seq<Row>, row: Row, key: Key)
    ensures CountOf(rows + [row], key) == CountOf(rows, key) + if Key(row.mid, row.reaction) == key then 1 else 0
  {
    assert (rows + [row])[..|rows|] == rows;
  }

  lemma {:induction false} MatchedRows(rows: seq<Row>, mids: set<string>)
    ensures forall row :: row in Match(rows, mids) <==> row in rows && row.mid in mids
  {
    if rows != [] {
      var front, last := rows[..|rows| - 1], rows[|rows| - 1];
      assert rows == front + [last];
      MatchedRows(front, mids);
    }
  }

  lemma {:induction false} MatchedCount(rows: seq<Row>, mids: set<string>, key: Key)
    ensures CountOf(Match(rows, mids), key) == if key.mid in mids then CountOf(rows, key) else 0
  {
    if rows != [] {
      var front, last := rows[..|rows| - 1], rows[|rows| - 1];
      MatchedCount(front, mids, key);
      CountOneMore(Match(front, mids), last, key);
    }
  }

  /** The first stage of the pipeline keeps exactly the rows of the asked-for messages, with their counts. */
  lemma MatchExact(rows: seq<Row>, mids: set<string>, key: Key)
    ensures CountOf(Match(rows, mids), key) == if key.mid in mids then CountOf(rows, key) else 0
    ensures forall row :: row in Match(rows, mids) <==> row in rows && row.mid in mids
  {
    MatchedCount(rows, mids, key);
    MatchedRows(rows, mids);
  }

  lemma {:induction false} CountedIff(rows: seq<Row>, key: Key)
    ensures CountOf(rows, key) > 0 <==> exists row :: row in rows && Key(row.mid, row.reaction) == key
  {
    if rows != [] {
      var front, last := rows[..|rows| - 1], rows[|rows| - 1];
      assert rows == front + [last];
      CountedIff(front, key);
      assert last in rows;
    }
  }

  /** The first stage: a group for every message and reaction with rows, with their number, and with the
      reaction as a mark exactly when the user has such a row. */
  lemma {:induction false} CountReactionsExact(rows: seq<Row>, user: Option<string>, key: Key)
    ensures key in CountReactions(rows, user) <==> CountOf(rows, key) > 0
    ensures key in CountReactions(rows, user) ==> GroupExact(rows, user, key, CountReactions(rows, user)[key])
  {
    if rows != [] {
      var front, last := rows[..|rows| - 1], rows[|rows| - 1];
      assert rows == front + [last];
      CountReactionsExact(front, user, key);
      CountedIff(front, key);
    }
  }

  ghost predicate GroupExact(rows: seq<Row>, user: Option<string>, key: Key, g: Group) {
    && g.count == CountOf(rows, key)
    && (forall m :: m in g.own && m.Own? ==> m.reaction == key.reaction && user.Some? && Row(key.mid, user.value, key.reaction) in rows)
    && (user.Some? && Row(key.mid, user.value, key.reaction) in rows ==> Own(key.reaction) in g.own)
  }

  /** The second stage keeps, for each message, the totals and the marks of its documents. */
  lemma {:induction false} AccumulateExact(docs: seq<Doc>, mid: string)
    ensures mid in Accumulate(docs) <==> exists d :: d in docs && d.key.mid == mid
    ensures mid in Accumulate(docs) ==>
      && (forall t :: t in Accumulate(docs)[mid].total <==>
                      exists d :: d in docs && d.key == Key(mid, t.reaction) && d.count == t.count)
      && (forall o :: o in Accumulate(docs)[mid].own <==> exists d :: d in docs && d.key.mid == mid && d.own == o)
  {
    if docs != [] {
      var front, last := docs[..|docs| - 1], docs[|docs| - 1];
      assert docs == front + [last];
      AccumulateExact(front, mid);
    }
  }

  /** Reducing the totals reads them off. */
  lemma {:induction false} ReduceExact(totals: seq<Total>, r: Reaction)
    ensures r in Reduce(totals) <==> exists t :: t in totals && t.reaction == r
    ensures r in Reduce(totals) ==> Total(Reduce(totals)[r], r) in totals
  {
    if totals != [] {
      var front, last := totals[..|totals| - 1], totals[|totals| - 1];
      assert totals == front + [last];
      ReduceExact(front, r);
    }
  }

  lemma {:induction false} OwnInExact(marks: seq<Mark>)
    ensures forall r :: r in OwnIn(marks) <==> Own(r) in marks
    ensures Distinct(marks) ==> Distinct(OwnIn(marks))
  {
    if marks != [] {
      var front, last := marks[..|marks| - 1], marks[|marks| - 1];
      assert marks == front + [last];
      OwnInExact(front);
      if Distinct(marks) && last.Own? {
        DistinctSnoc(OwnIn(front), last.reaction);
      }
    }
  }

  /** No reaction is marked in two of the arrays. */
  ghost predicate Apart(owns: seq<seq<Mark>>) {
    forall i, j, m :: 0 <= i < j < |owns| && m in owns[i] && m in owns[j] ==> m.Nothing?
  }

  lemma {:induction false} FlattenExact(owns: seq<seq<Mark>>)
    ensures forall r :: r in Flatten(owns) <==> exists o :: o in owns && Own(r) in o
    ensures Apart(owns) && (forall o :: o in owns ==> Distinct(o)) ==> Distinct(Flatten(owns))
  {
    if owns != [] {
      var front, last := owns[..|owns| - 1], owns[|owns| - 1];
      assert owns == front + [last];
      FlattenExact(front);
      OwnInExact(last);
      if Apart(owns) && forall o :: o in owns ==> Distinct(o) {
        forall r | r in Flatten(front) ensures r !in OwnIn(last) {
          var o :| o in front && Own(r) in o;
          var i :| 0 <= i < |front| && front[i] == o;
          assert owns[i] == o && owns[|front|] == last;
          assert Own(r) in owns[i] && !Own(r).Nothing?;
        }
        DistinctConcat(Flatten(front), OwnIn(last));
      }
    }
  }

  // ---- sorting ----

  /** At the first code unit in which they differ, the one with the smaller unit comes first; a prefix comes before what
      it begins. */
  ghost predicate Before(a: Reaction, b: Reaction, k: nat) {
    k < |a| && k < |b| && a[..k] == b[..k] && a[k] < b[k]
  }

  lemma {:induction false} AtMostIff(a: Reaction, b: Reaction)
    ensures AtMost(a, b) <==> a <= b || exists k: nat :: Before(a, b, k)
  {
    if a != [] && b != [] {
      AtMostIff(a[1..], b[1..]);
      assert a == [a[0]] + a[1..] && b == [b[0]] + b[1..];
      if a[0] < b[0] {
        assert Before(a, b, 0);
      } else if a[0] == b[0] {
        if k: nat :| Before(a[1..], b[1..], k) {
          assert a[..k + 1] == [a[0]] + a[1..][..k] && b[..k + 1] == [b[0]] + b[1..][..k];
          assert Before(a, b, k + 1);
        }
        if k: nat :| Before(a, b, k) {
          assert a[..k] == [a[0]] + a[1..][..k - 1] && b[..k] == [b[0]] + b[1..][..k - 1];
          assert a[1..][..k - 1] == a[..k][1..] && b[1..][..k - 1] == b[..k][1..];
          assert Before(a[1..], b[1..], k - 1);
        }
        assert a <= b <==> a[1..] <= b[1..];
      } else {
        forall k: nat ensures !Before(a, b, k) {
          assert k > 0 && k < |a| && k < |b| ==> a[..k][0] == a[0] && b[..k][0] == b[0];
        }
      }
    }
  }

  lemma AtMostTotal(a: Reaction, b: Reaction)
    ensures AtMost(a, b) || AtMost(b, a)
  {
  }

  lemma AtMostTransitive(a: Reaction, b: Reaction, c: Reaction)
    requires AtMost(a, b) && AtMost(b, c)
    ensures AtMost(a, c)
  {
  }

  lemma {:induction false} AtMostAntisymmetric(a: Reaction, b: Reaction)
    requires AtMost(a, b) && AtMost(b, a)
    ensures a == b
  {
    if a != [] {
      AtMostAntisymmetric(a[1..], b[1..]);
      assert a == [a[0]] + a[1..] && b == [b[0]] + b[1..];
    }
  }

  ghost predicate Ascending(xs: seq<Reaction>) {
    forall i, j :: 0 <= i < j < |xs| ==> AtMost(xs[i], xs[j])
  }

  lemma {:induction false} InsertSpec(x: Reaction, sorted: seq<Reaction>)
    requires Ascending(sorted)
    ensures Ascending(Insert(x, sorted)) && multiset(Insert(x, sorted)) == multiset{x} + multiset(sorted)
  {
    if sorted != [] {
      assert sorted == [sorted[0]] + sorted[1..];
      if AtMost(x, sorted[0]) {
        forall j | 0 <= j < |sorted| ensures AtMost(x, sorted[j]) {
          if j > 0 {
            AtMostTransitive(x, sorted[0], sorted[j]);
          }
        }
      } else {
        AtMostTotal(x, sorted[0]);
        InsertSpec(x, sorted[1..]);
        var rest := Insert(x, sorted[1..]);
        forall y | y in rest ensures AtMost(sorted[0], y) {
          assert y in multiset(rest);
        }
      }
    }
  }

  lemma {:induction false} SortSpec(xs: seq<Reaction>)
    ensures Ascending(Sort(xs)) && multiset(Sort(xs)) == multiset(xs)
  {
    if xs != [] {
      SortSpec(xs[1..]);
      InsertSpec(xs[0], Sort(xs[1..]));
      assert xs == [xs[0]] + xs[1..];
    }
  }

  lemma {:induction false} DistinctMultiset(xs: seq<Reaction>)
    requires Distinct(xs)
    ensures multiset(xs) == multiset(SetOf(xs))
  {
    if xs != [] {
      var front, last := xs[..|xs| - 1], xs[|xs| - 1];
      assert xs == front + [last];
      DistinctMultiset(front);
      SetOfSnoc(front, last);
      assert last !in SetOf(front);
    }
  }

  /** An ascending list is determined by what it holds. */
  lemma {:induction false} AscendingUnique(xs: seq<Reaction>, ys: seq<Reaction>)
    requires Ascending(xs) && Ascending(ys) && multiset(xs) == multiset(ys)
    ensures xs == ys
  {
    if xs == [] {
      assert |multiset(ys)| == 0;
    } else {
      assert |multiset(ys)| > 0;
      HeadLeast(xs, ys);
      HeadLeast(ys, xs);
      AtMostAntisymmetric(xs[0], ys[0]);
      AscendingTail(xs);
      AscendingTail(ys);
      AscendingUnique(xs[1..], ys[1..]);
    }
  }

  lemma AscendingTail(xs: seq<Reaction>)
    requires Ascending(xs) && xs != []
    ensures Ascending(xs[1..]) && multiset(xs[1..]) == multiset(xs) - multiset{xs[0]} && xs == [xs[0]] + xs[1..]
  {
    assert xs == [xs[0]] + xs[1..];
  }

  lemma HeadLeast(xs: seq<Reaction>, ys: seq<Reaction>)
    requires Ascending(xs) && multiset(xs) == multiset(ys) && xs != [] && ys != []
    ensures AtMost(xs[0], ys[0])
  {
    assert ys[0] in multiset(xs);
    AtMostReflexive(xs[0]);
  }

  lemma AtMostReflexive(a: Reaction)
    ensures AtMost(a, a)
  {
  }

  // ---- the aggregation is direct counting ----

  ghost function OwnReactions(rows: seq<Row>, mid: string, user: Option<string>): set<Reaction> {
    set row | row in rows && row.mid == mid && Some(row.user) == user :: row.reaction
  }

  /** The summary of a message by direct counting: every reaction it has with its number of rows, and the
      user's own reactions, ascending and each once. */
  ghost predicate Direct(rows: seq<Row>, mid: string, user: Option<string>, s: Summary) {
    && (forall r :: r in s.total <==> CountOf(rows, Key(mid, r)) > 0)
    && (forall r :: r in s.total ==> s.total[r] == CountOf(rows, Key(mid, r)))
    && Ascending(s.own) && multiset(s.own) == multiset(OwnReactions(rows, mid, user))
  }

  /** At most one summary is direct. */
  lemma DirectUnique(rows: seq<Row>, mid: string, user: Option<string>, s: Summary, s': Summary)
    requires Direct(rows, mid, user, s) && Direct(rows, mid, user, s')
    ensures s == s'
  {
    AscendingUnique(s.own, s'.own);
    assert s.total == s'.total;
  }

  /** What the documents of the first stage say, in terms of the rows. */
  ghost predicate DocExact(rows: seq<Row>, user: Option<string>, d: Doc) {
    && d.count == CountOf(rows, d.key) && d.count > 0 && Distinct(d.own)
    && (forall r :: Own(r) in d.own <==> r == d.key.reaction && r in OwnReactions(rows, d.key.mid, user))
  }

  lemma StreamExact(rows: seq<Row>, mids: set<string>, user: Option<string>, docs: seq<Doc>)
    requires Stream(docs, CountReactions(Match(rows, mids), user))
    ensures forall d :: d in docs ==> d.key.mid in mids && DocExact(rows, user, d)
    ensures forall k: Key :: k.mid in mids && CountOf(rows, k) > 0 ==> exists d :: d in docs && d.key == k
  {
    var matched := Match(rows, mids);
    forall d | d in docs ensures d.key.mid in mids && DocExact(rows, user, d) {
      MatchExact(rows, mids, d.key);
      CountReactionsExact(matched, user, d.key);
      OwnMark(rows, mids, user, d, CountReactions(matched, user)[d.key]);
    }
    forall k: Key | k.mid in mids && CountOf(rows, k) > 0 ensures exists d :: d in docs && d.key == k {
      MatchExact(rows, mids, k);
      CountReactionsExact(matched, user, k);
    }
  }

  lemma OwnMark(rows: seq<Row>, mids: set<string>, user: Option<string>, d: Doc, g: Group)
    requires d.key.mid in mids && GroupExact(Match(rows, mids), user, d.key, g) && Lists(d.own, g.own)
    ensures forall r :: Own(r) in d.own <==> r == d.key.reaction && r in OwnReactions(rows, d.key.mid, user)
  {
    MatchExact(rows, mids, d.key);
    forall r: Reaction ensures Own(r) in d.own <==> r == d.key.reaction && r in OwnReactions(rows, d.key.mid, user) {
      assert Own(r) in d.own <==> Own(r) in g.own;
      if r in OwnReactions(rows, d.key.mid, user) {
        assert Row(d.key.mid, user.value, r) in rows;
      }
    }
  }

  lemma TotalsDirect(rows: seq<Row>, mids: set<string>, user: Option<string>, docs: seq<Doc>, mid: string,
                     totals: seq<Total>)
    requires Stream(docs, CountReactions(Match(rows, mids), user))
    requires mid in Accumulate(docs) && Lists(totals, Accumulate(docs)[mid].total)
    ensures forall r :: r in Reduce(totals) <==> CountOf(rows, Key(mid, r)) > 0
    ensures forall r :: r in Reduce(totals) ==> Reduce(totals)[r] == CountOf(rows, Key(mid, r))
  {
    StreamExact(rows, mids, user, docs);
    AccumulateExact(docs, mid);
    forall r: Reaction, n: nat ensures Total(n, r) in totals <==> n > 0 && n == CountOf(rows, Key(mid, r)) {
      if n > 0 && n == CountOf(rows, Key(mid, r)) {
        var d :| d in docs && d.key == Key(mid, r);
        assert Total(d.count, r) in Accumulate(docs)[mid].total;
      }
    }
    forall r: Reaction
      ensures r in Reduce(totals) <==> CountOf(rows, Key(mid, r)) > 0
      ensures r in Reduce(totals) ==> Reduce(totals)[r] == CountOf(rows, Key(mid, r))
    {
      ReduceRight(totals, r, CountOf(rows, Key(mid, r)));
    }
  }

  lemma ReduceRight(totals: seq<Total>, r: Reaction, n: nat)
    requires forall k: nat :: Total(k, r) in totals <==> k > 0 && k == n
    ensures r in Reduce(totals) <==> n > 0
    ensures r in Reduce(totals) ==> Reduce(totals)[r] == n
  {
    ReduceExact(totals, r);
    assert Total(n, r) in totals <==> n > 0;
    forall t | t in totals && t.reaction == r ensures t.count == n {
      assert Total(t.count, r) in totals;
    }
  }

  lemma OwnsDirect(rows: seq<Row>, mids: set<string>, user: Option<string>, docs: seq<Doc>, mid: string,
                   owns: seq<seq<Mark>>)
    requires Stream(docs, CountReactions(Match(rows, mids), user))
    requires mid in Accumulate(docs) && Lists(owns, Accumulate(docs)[mid].own)
    ensures Distinct(Flatten(owns)) && SetOf(Flatten(owns)) == OwnReactions(rows, mid, user)
  {
    StreamExact(rows, mids, user, docs);
    AccumulateExact(docs, mid);
    FlattenExact(owns);
    OwnsApart(rows, user, docs, mid, owns);
    forall r: Reaction ensures r in Flatten(owns) <==> r in OwnReactions(rows, mid, user) {
      if r in OwnReactions(rows, mid, user) {
        CountedIff(rows, Key(mid, r));
        var d :| d in docs && d.key == Key(mid, r);
        assert d.own in owns;
      }
    }
  }

  /** Two different arrays come from two different reactions. */
  lemma OwnsApart(rows: seq<Row>, user: Option<string>, docs: seq<Doc>, mid: string, owns: seq<seq<Mark>>)
    requires forall d :: d in docs ==> DocExact(rows, user, d)
    requires forall i, j :: 0 <= i < j < |docs| ==> docs[i].key != docs[j].key
    requires Distinct(owns) && forall o :: o in owns ==> exists d :: d in docs && d.key.mid == mid && d.own == o
    ensures Apart(owns)
  {
    forall i, j, m | 0 <= i < j < |owns| && m in owns[i] && m in owns[j] ensures m.Nothing? {
      assert owns[i] in owns && owns[j] in owns;
      var d :| d in docs && d.key.mid == mid && d.own == owns[i];
      var e :| e in docs && e.key.mid == mid && e.own == owns[j];
    }
  }

  /** Whatever orders the database lists groups and sets in, the result has exactly the asked-for messages
      with reactions, and for each the summary by direct counting. */
  lemma AggregationDirect(rows: seq<Row>, mids: set<string>, user: Option<string>, result: map<string, Summary>)
    requires Aggregated(rows, mids, user, result)
    ensures forall mid :: mid in result <==> mid in mids && exists row :: row in rows && row.mid == mid
    ensures forall mid :: mid in result ==> Direct(rows, mid, user, result[mid])
  {
    var docs: seq<Doc> :| Stream(docs, CountReactions(Match(rows, mids), user)) && Mapped(docs, user, result);
    StreamExact(rows, mids, user, docs);
    forall mid: string ensures mid in result <==> mid in mids && exists row :: row in rows && row.mid == mid {
      AccumulateExact(docs, mid);
      if mid in result {
        var d :| d in docs && d.key.mid == mid;
        CountedIff(rows, d.key);
      }
      if mid in mids && exists row :: row in rows && row.mid == mid {
        var row :| row in rows && row.mid == mid;
        CountedIff(rows, Key(mid, row.reaction));
      }
    }
    forall mid | mid in result ensures Direct(rows, mid, user, result[mid]) {
      var totals, owns :| Listed(Accumulate(docs)[mid], totals, owns) && result[mid] == Summarise(user, totals, owns);
      SummaryDirect(rows, mids, user, docs, mid, totals, owns);
    }
  }

  lemma SummaryDirect(rows: seq<Row>, mids: set<string>, user: Option<string>, docs: seq<Doc>, mid: string,
                      totals: seq<Total>, owns: seq<seq<Mark>>)
    requires Stream(docs, CountReactions(Match(rows, mids), user))
    requires mid in Accumulate(docs) && Listed(Accumulate(docs)[mid], totals, owns)
    ensures Direct(rows, mid, user, Summarise(user, totals, owns))
  {
    TotalsDirect(rows, mids, user, docs, mid, totals);
    OwnsDirect(rows, mids, user, docs, mid, owns);
    SortSpec(Flatten(owns));
    DistinctMultiset(Flatten(owns));
  }

  ghost function UsersWith(rows: seq<Row>, key: Key): set<string> {
    set row | row in rows && Key(row.mid, row.reaction) == key :: row.user
  }

  /** On rows without repetition, as every run leaves them, a count is the number of users who reacted so. */
  lemma {:induction false} CountsUsers(rows: seq<Row>, key: Key)
    requires Distinct(rows)
    ensures CountOf(rows, key) == |UsersWith(rows, key)|
  {
    if rows != [] {
      var front, last := rows[..|rows| - 1], rows[|rows| - 1];
      assert rows == front + [last] && last !in front;
      CountsUsers(front, key);
      if Key(last.mid, last.reaction) == key {
        assert last.user !in UsersWith(front, key);
        assert UsersWith(rows, key) == UsersWith(front, key) + {last.user};
      } else {
        assert UsersWith(rows, key) == UsersWith(front, key);
      }
    } else {
      assert UsersWith(rows, key) == {};
    }
  }
}
