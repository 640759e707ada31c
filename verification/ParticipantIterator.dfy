/** The keyset-paginated iterator over a conversation's participants. The number of batches is fixed by a
    count at the start; each batch is a query of its own, so the table may have changed in between. */
module ParticipantIterator {
  import opened Text

  datatype Row = Row(id: int, user: string)

  /** A conversation's rows in descending id order, ids being unique. */
  predicate Sorted(rows: seq<Row>) {
    forall i, j :: 0 <= i < j < |rows| ==> rows[i].id > rows[j].id
  }

  predicate Kept(r: Row, except: set<string>, last: Option<int>) {
    r.user !in except && (last.Some? ==> r.id < last.value)
  }

  /** The rows that match the query, in order. */
  function Matching(rows: seq<Row>, except: set<string>, last: Option<int>): (r: seq<Row>)
    ensures forall x :: x in r <==> x in rows && Kept(x, except, last)
  {
    if rows == [] then []
    else
      var rest := Matching(rows[..|rows| - 1], except, last);
      var x := rows[|rows| - 1];
      assert rows == rows[..|rows| - 1] + [x];
      if Kept(x, except, last) then rest + [x] else rest
  }

  /** `find(query).sort({ _id: -1 }).limit(limit)` */
  function Query(rows: seq<Row>, except: set<string>, last: Option<int>, limit: nat): seq<Row> {
    var m := Matching(rows, except, last);
    if |m| <= limit then m else m[..limit]
  }

  /** `Math.ceil(total / size)` */
  function BatchCount(total: nat, size: nat): nat
    requires size > 0
  {
    (total + size - 1) / size
  }

  /** Batch i is read from the table as it is then, `tables(i + 1)`; the count was read from `tables(0)`. */
  function Batch(tables: nat -> seq<Row>, except: set<string>, size: nat, i: nat): seq<Row>
    decreases i, 1
  {
    Query(tables(i + 1), except, LastId(tables, except, size, i), size)
  }

  /** `lastObjectId` before batch i; an empty batch resets it. */
  function LastId(tables: nat -> seq<Row>, except: set<string>, size: nat, i: nat): Option<int>
    decreases i, 0
  {
    if i == 0 then None
    else
      var b := Batch(tables, except, size, i - 1);
      if b == [] then None else Some(b[|b| - 1].id)
  }

  function Users(rows: seq<Row>): seq<string> {
    seq(|rows|, i requires 0 <= i < |rows| => rows[i].user)
  }

  /** A table that does not change. */
  function Fixed(rows: seq<Row>): nat -> seq<Row> {
    _ => rows
  }

  function Total(tables: nat -> seq<Row>, except: set<string>): nat {
    |Matching(tables(0), except, None)|
  }

  method ConversationParticipantIds(tables: nat -> seq<Row>, except: set<string>,
                                    batchSize: nat) returns (batches: seq<seq<string>>)
    requires batchSize > 0
    ensures |batches| == BatchCount(Total(tables, except), batchSize)
    ensures forall i :: 0 <= i < |batches| ==> batches[i] == Users(Batch(tables, except, batchSize, i))
    ensures forall i, j :: 0 <= i < |batches| && 0 <= j < |batches[i]| ==>
      j < |Batch(tables, except, batchSize, i)| && batches[i][j] == Batch(tables, except, batchSize, i)[j].user
  {
    var lastObjectId: Option<int> := None;
    var totalBatches := BatchCount(|Matching(tables(0), except, None)|, batchSize);
    batches := [];
    for i := 0 to totalBatches
      invariant |batches| == i
      invariant lastObjectId == LastId(tables, except, batchSize, i)
      invariant forall j :: 0 <= j < i ==> batches[j] == Users(Batch(tables, except, batchSize, j))
    {
      var rows := Query(tables(i + 1), except, lastObjectId, batchSize);
      lastObjectId := if rows == [] then None else Some(rows[|rows| - 1].id);
      batches := batches + [Users(rows)];
    }
  }

  // ---- order ----

  lemma {:induction false} MatchingSorted(rows: seq<Row>, except: set<string>, last: Option<int>)
    requires Sorted(rows)
    ensures Sorted(Matching(rows, except, last))
  {
    if rows != [] {
      var front, x := rows[..|rows| - 1], rows[|rows| - 1];
      MatchingSorted(front, except, last);
      forall y | y in Matching(front, except, last) ensures y.id > x.id {
        assert y in front;
      }
    }
  }

  lemma RestBelow(a: seq<Row>, x: Row)
    requires Sorted(a) && a != []
    ensures x in a[1..] <==> x in a && x.id < a[0].id
  {
    if x in a && x.id < a[0].id {
      var j :| 0 <= j < |a| && a[j] == x;
      assert x == a[1..][j - 1];
    }
  }

  /** Sorted rows are determined by their elements. */
  lemma {:induction false} SortedUnique(a: seq<Row>, b: seq<Row>)
    requires Sorted(a) && Sorted(b) && forall x :: x in a <==> x in b
    ensures a == b
  {
    assert b != [] ==> b[0] in a;
    if a != [] {
      assert a[0] in a && a[0] in b;
      assert b[0] in b && b[0] in a;
      assert a[0] == b[0];
      forall x ensures x in a[1..] <==> x in b[1..] {
        assert x in a[1..] <==> x in a && x.id < a[0].id by { RestBelow(a, x); }
        assert x in b[1..] <==> x in b && x.id < b[0].id by { RestBelow(b, x); }
      }
      SortedUnique(a[1..], b[1..]);
    }
  }

  /** What is below the k-th row of the whole answer is the rest of the answer. */
  lemma BelowIsRest(rows: seq<Row>, except: set<string>, k: nat)
    requires Sorted(rows) && k < |Matching(rows, except, None)|
    ensures var m := Matching(rows, except, None); Matching(rows, except, Some(m[k].id)) == m[k + 1..]
  {
    var m := Matching(rows, except, None);
    var below := Matching(rows, except, Some(m[k].id));
    MatchingSorted(rows, except, None);
    MatchingSorted(rows, except, Some(m[k].id));
    forall x ensures x in below <==> x in m[k + 1..] {
      AfterIsBelow(m, k, x);
    }
    SortedUnique(below, m[k + 1..]);
  }

  lemma AfterIsBelow(m: seq<Row>, k: nat, x: Row)
    requires Sorted(m) && k < |m|
    ensures x in m[k + 1..] <==> x in m && x.id < m[k].id
  {
    if x in m && x.id < m[k].id {
      var j :| 0 <= j < |m| && m[j] == x;
      assert j > k && x == m[k + 1..][j - k - 1];
    }
    if x in m[k + 1..] {
      var j :| 0 <= j < |m[k + 1..]| && m[k + 1..][j] == x;
      assert x == m[j + k + 1];
    }
  }

  // ---- from one batch to the next ----

  /** A batch is the newest participants not excepted, as many as asked for, below the last row of the batch before; but
      after an empty batch the iterator starts again from the top. */
  lemma NextBatch(tables: nat -> seq<Row>, except: set<string>, size: nat, i: nat)
    requires Sorted(tables(i + 2)) && size > 0
    ensures var b, next := Batch(tables, except, size, i), Batch(tables, except, size, i + 1);
      && |next| <= size && Sorted(next)
      && (forall x :: x in next ==> x in tables(i + 2) && x.user !in except && (b != [] ==> x.id < b[|b| - 1].id))
      && (forall x :: x in tables(i + 2) && x.user !in except && (b != [] ==> x.id < b[|b| - 1].id) && x !in next ==>
            |next| == size && forall y :: y in next ==> y.id > x.id)
  {
    var last := LastId(tables, except, size, i + 1);
    QuerySorted(tables(i + 2), except, last, size);
    var b, next := Batch(tables, except, size, i), Batch(tables, except, size, i + 1);
    forall x | x in tables(i + 2) && x.user !in except && (b != [] ==> x.id < b[|b| - 1].id) && x !in next
      ensures |next| == size && forall y :: y in next ==> y.id > x.id
    {
      LeftOut(tables(i + 2), except, last, size, x);
    }
  }

  // ---- on a fixed table ----

  /** A batch that ends right before row `at` is followed by one that begins there. */
  lemma NextSlice(rows: seq<Row>, except: set<string>, size: nat, i: nat, at: nat)
    requires Sorted(rows) && i > 0 && 0 < size <= at < |Matching(rows, except, None)|
    requires Batch(Fixed(rows), except, size, i - 1) == Matching(rows, except, None)[at - size..at]
    ensures Batch(Fixed(rows), except, size, i) == Matching(rows, except, None)[at..Min(at + size, |Matching(rows, except, None)|)]
  {
    var m := Matching(rows, except, None);
    BelowIsRest(rows, except, at - 1);
    assert LastId(Fixed(rows), except, size, i) == Some(m[at - 1].id);
    assert Matching(rows, except, Some(m[at - 1].id)) == m[at..];
  }

  lemma Predecessor(i: nat, size: nat)
    requires i > 0
    ensures (i - 1) * size == i * size - size >= 0
  {
  }

  /** Batch i holds the `size` rows of the answer from row at = i * size on. */
  lemma {:induction false} BatchIsSlice(rows: seq<Row>, except: set<string>, size: nat, i: nat, at: nat)
    requires Sorted(rows) && size > 0 && at == i * size && at < |Matching(rows, except, None)|
    ensures Batch(Fixed(rows), except, size, i) == Matching(rows, except, None)[at..Min(at + size, |Matching(rows, except, None)|)]
  {
    if i > 0 {
      Predecessor(i, size);
      BatchIsSlice(rows, except, size, i - 1, at - size);
      NextSlice(rows, except, size, i, at);
    }
  }

  function Concat(batches: seq<seq<Row>>): seq<Row> {
    if batches == [] then [] else Concat(batches[..|batches| - 1]) + batches[|batches| - 1]
  }

  function BatchesUpTo(tables: nat -> seq<Row>, except: set<string>, size: nat, n: nat): seq<seq<Row>> {
    seq(n, i requires 0 <= i < n => Batch(tables, except, size, i))
  }

  lemma MulMono(a: nat, b: nat, c: nat)
    requires a <= b
    ensures a * c <= b * c
  {
    assert b * c - a * c == (b - a) * c;
  }

  lemma CountBound(total: nat, size: nat, i: nat)
    requires size > 0
    ensures i < BatchCount(total, size) <==> i * size < total
  {
    var y := total + size - 1;
    var n := BatchCount(total, size);
    assert y == size * n + y % size;
    if i < n {
      MulMono(i + 1, n, size);
      assert (i + 1) * size == i * size + size;
    } else {
      MulMono(n, i, size);
    }
  }

  lemma ConcatNext(tables: nat -> seq<Row>, except: set<string>, size: nat, n: nat)
    ensures Concat(BatchesUpTo(tables, except, size, n + 1)) ==
            Concat(BatchesUpTo(tables, except, size, n)) + Batch(tables, except, size, n)
  {
    assert BatchesUpTo(tables, except, size, n + 1)[..n] == BatchesUpTo(tables, except, size, n);
  }

  lemma SliceAfter(m: seq<Row>, at: nat, size: nat)
    requires at < |m|
    ensures m[..Min(at, |m|)] + m[at..Min(at + size, |m|)] == m[..Min(at + size, |m|)]
  {
  }

  lemma {:induction false} PrefixOfAnswer(rows: seq<Row>, except: set<string>, size: nat, n: nat, at: nat)
    requires Sorted(rows) && size > 0 && at == n * size
    requires n > 0 ==> at < |Matching(rows, except, None)| + size
    ensures Concat(BatchesUpTo(Fixed(rows), except, size, n)) == Matching(rows, except, None)[..Min(at, |Matching(rows, except, None)|)]
  {
    if n > 0 {
      Predecessor(n, size);
      PrefixOfAnswer(rows, except, size, n - 1, at - size);
      BatchIsSlice(rows, except, size, n - 1, at - size);
      ConcatNext(Fixed(rows), except, size, n - 1);
      SliceAfter(Matching(rows, except, None), at - size, size);
    }
  }

  /** On a fixed table the batches concatenate to all participants that are not excepted, each once, newest
      first, and no batch is empty or longer than asked for. */
  lemma FixedTable(rows: seq<Row>, except: set<string>, size: nat)
    requires Sorted(rows) && size > 0
    ensures var n := BatchCount(Total(Fixed(rows), except), size);
      && Concat(BatchesUpTo(Fixed(rows), except, size, n)) == Matching(rows, except, None)
      && forall i :: 0 <= i < n ==> 0 < |Batch(Fixed(rows), except, size, i)| <= size
  {
    var m := Matching(rows, except, None);
    var n := BatchCount(|m|, size);
    var at := LastBatch(|m|, size);
    PrefixOfAnswer(rows, except, size, n, at);
    forall i | 0 <= i < n ensures 0 < |Batch(Fixed(rows), except, size, i)| <= size {
      FixedBatch(rows, except, size, i);
    }
  }

  lemma FixedBatch(rows: seq<Row>, except: set<string>, size: nat, i: nat)
    requires Sorted(rows) && size > 0 && i < BatchCount(|Matching(rows, except, None)|, size)
    ensures 0 < |Batch(Fixed(rows), except, size, i)| <= size
  {
    CountBound(|Matching(rows, except, None)|, size, i);
    BatchIsSlice(rows, except, size, i, i * size);
  }

  /** Where the last counted batch ends: at or after the last row, by less than a batch. */
  lemma LastBatch(total: nat, size: nat) returns (at: nat)
    requires size > 0
    ensures at == BatchCount(total, size) * size && total <= at
    ensures BatchCount(total, size) > 0 ==> at < total + size
  {
    var n := BatchCount(total, size);
    at := n * size;
    CountBound(total, size, n);
    if n > 0 {
      CountBound(total, size, n - 1);
      Predecessor(n, size);
    }
  }

  // ---- on a table that changes between the reads ----

  /** Whatever the later table holds at or below a row of the earlier one was in the earlier one too. */
  ghost predicate OnlyAbove(earlier: seq<Row>, later: seq<Row>) {
    forall y, z :: y in later && z in earlier && y.id <= z.id ==> y in earlier
  }

  ghost predicate Within(a: seq<Row>, b: seq<Row>) {
    forall y :: y in a ==> y in b
  }

  ghost predicate AllSorted(tables: nat -> seq<Row>) {
    forall i: nat :: Sorted(tables(i))
  }

  /** Ids grow: rows may be removed between reads, and new ones come in above all others. */
  ghost predicate Appending(tables: nat -> seq<Row>) {
    AllSorted(tables) && forall i: nat, j: nat {:trigger OnlyAbove(tables(i), tables(j))} :: i <= j ==> OnlyAbove(tables(i), tables(j))
  }

  /** Rows are only removed between reads: a later table holds nothing an earlier one did not. */
  ghost predicate Shrinking(tables: nat -> seq<Row>) {
    AllSorted(tables) && forall i: nat, j: nat {:trigger Within(tables(j), tables(i))} :: i <= j ==> Within(tables(j), tables(i))
  }

  /** Rows are only inserted between reads, above all others. */
  ghost predicate Growing(tables: nat -> seq<Row>) {
    Appending(tables) && forall i: nat, j: nat {:trigger Within(tables(i), tables(j))} :: i <= j ==> Within(tables(i), tables(j))
  }

  /** The participants the query would list before x. */
  ghost function Above(rows: seq<Row>, except: set<string>, x: Row): set<Row> {
    set y | y in Matching(rows, except, None) && y.id > x.id
  }

  /** How many rows k batches can hold: k times the size. */
  function Room(k: nat, size: nat): nat {
    if k == 0 then 0 else Room(k - 1, size) + size
  }

  lemma {:induction false} RoomIs(k: nat, size: nat)
    ensures Room(k, size) == k * size
  {
    if k > 0 {
      RoomIs(k - 1, size);
      Predecessor(k, size);
    }
  }

  lemma {:induction false} RoomGrows(i: nat, k: nat, size: nat)
    requires i <= k
    ensures Room(i, size) <= Room(k, size)
  {
    if i < k {
      RoomGrows(i, k - 1, size);
    }
  }

  /** The counted batches can hold all that was counted. */
  lemma EnoughRoom(total: nat, size: nat)
    requires size > 0
    ensures total <= Room(BatchCount(total, size), size)
  {
    CountBound(total, size, BatchCount(total, size));
    RoomIs(BatchCount(total, size), size);
  }

  /** Some batch of the iterator holds x. */
  ghost predicate Yielded(tables: nat -> seq<Row>, except: set<string>, size: nat, x: Row)
    requires size > 0
  {
    exists i: nat :: i < BatchCount(Total(tables, except), size) && x in Batch(tables, except, size, i)
  }

  /** x is in every table from the first batch on. */
  ghost predicate Stays(tables: nat -> seq<Row>, x: Row) {
    forall j: nat :: 1 <= j ==> x in tables(j)
  }

  lemma Subset<T>(a: set<T>, b: set<T>)
    requires a <= b
    ensures |a| <= |b|
  {
    assert b == a + (b - a);
  }

  lemma QuerySorted(rows: seq<Row>, except: set<string>, last: Option<int>, size: nat)
    requires Sorted(rows)
    ensures var b := Query(rows, except, last, size);
      Sorted(b) && |b| <= size && forall y :: y in b ==> y in rows && Kept(y, except, last)
  {
    var m, b := Matching(rows, except, last), Query(rows, except, last, size);
    MatchingSorted(rows, except, last);
    forall y | y in b ensures y in m {}
  }

  /** A matching row that a batch leaves out lies below the batch, which is then full. */
  lemma LeftOut(rows: seq<Row>, except: set<string>, last: Option<int>, size: nat, x: Row)
    requires Sorted(rows) && size > 0 && x in rows && Kept(x, except, last)
    requires x !in Query(rows, except, last, size)
    ensures var b := Query(rows, except, last, size);
      |b| == size && forall y :: y in b ==> y.id > x.id
  {
    var m, b := Matching(rows, except, last), Query(rows, except, last, size);
    MatchingSorted(rows, except, last);
    assert x in m;
    var j :| 0 <= j < |m| && m[j] == x;
    assert |m| > size && j >= size by {
      assert forall k :: 0 <= k < |b| ==> b[k] == m[k] && b[k] in b;
    }
  }

  /** A batch that leaves x out: full, above x, and taken from rows that were there at the first batch. */
  lemma FullBatch(rows: seq<Row>, rows1: seq<Row>, except: set<string>, last: Option<int>, size: nat, x: Row)
    requires Sorted(rows) && size > 0 && x in rows && Kept(x, except, last) && x !in Query(rows, except, last, size)
    requires forall y :: y in rows && Kept(y, except, last) ==> y in rows1
    ensures var b := Query(rows, except, last, size);
      && |b| == |SetOf(b)| == size && SetOf(b) <= Above(rows1, except, x) && b[size - 1] in b
      && forall y :: y in SetOf(b) ==> y.id >= b[size - 1].id && (last.Some? ==> y.id < last.value)
  {
    var b := Query(rows, except, last, size);
    QuerySorted(rows, except, last, size);
    LeftOut(rows, except, last, size, x);
    DistinctCard(b);
  }

  lemma DisjointUnion(a: set<Row>, b: set<Row>)
    requires a !! b
    ensures |a + b| == |a| + |b|
  {
  }

  /** What has been read down to `last` while x was left out: rows above x in the first batch's table. */
  ghost predicate AllAbove(rows1: seq<Row>, except: set<string>, x: Row, last: Option<int>, seen: set<Row>) {
    && seen <= Above(rows1, except, x)
    && (last.None? ==> seen == {})
    && (last.Some? ==> x.id < last.value && HasId(rows1, last.value) && forall y :: y in seen ==> y.id >= last.value)
  }

  ghost predicate HasId(rows: seq<Row>, id: int) {
    exists z :: z in rows && z.id == id
  }

  /** A batch takes its rows from the first batch's table: it is that batch, or reads below a row of that table. */
  lemma WasThere(rows: seq<Row>, rows1: seq<Row>, except: set<string>, last: Option<int>)
    requires rows == rows1 || (OnlyAbove(rows1, rows) && last.Some? && HasId(rows1, last.value))
    ensures forall y :: y in rows && Kept(y, except, last) ==> y in rows1
  {
  }

  lemma OneMoreFull(rows: seq<Row>, rows1: seq<Row>, except: set<string>, last: Option<int>, size: nat, x: Row,
                    before: set<Row>)
    returns (seen: set<Row>)
    requires Sorted(rows) && size > 0 && x in rows && x.user !in except && x !in Query(rows, except, last, size)
    requires rows == rows1 || (OnlyAbove(rows1, rows) && last.Some?)
    requires AllAbove(rows1, except, x, last, before)
    ensures |seen| == |before| + size
    ensures var b := Query(rows, except, last, size);
      b != [] && AllAbove(rows1, except, x, Some(b[|b| - 1].id), seen)
  {
    var b := Query(rows, except, last, size);
    WasThere(rows, rows1, except, last);
    FullBatch(rows, rows1, except, last, size, x);
    Merge(Above(rows1, except, x), last, before, SetOf(b), b[size - 1], x);
    seen := before + SetOf(b);
    assert HasId(rows1, b[size - 1].id);
  }

  /** A batch below the rows read before it: together they are as many, and all at or above the last of them. */
  lemma Merge(above: set<Row>, last: Option<int>, before: set<Row>, batch: set<Row>, z: Row, x: Row)
    requires before <= above && batch <= above && z in batch && forall y :: y in above ==> y.id > x.id
    requires if last.Some? then forall y :: y in before ==> y.id >= last.value else before == {}
    requires forall y :: y in batch ==> y.id >= z.id && (last.Some? ==> y.id < last.value)
    ensures |before + batch| == |before| + |batch| && before + batch <= above && x.id < z.id
    ensures forall y :: y in before + batch ==> y.id >= z.id
  {
    assert before !! batch;
    DisjointUnion(before, batch);
  }

  /** What batch i reads of table i + 1, with x still there. */
  ghost predicate Readable(tables: nat -> seq<Row>, x: Row, i: nat) {
    Sorted(tables(i + 1)) && OnlyAbove(tables(1), tables(i + 1)) && x in tables(i + 1)
  }

  ghost predicate AllReadable(tables: nat -> seq<Row>, x: Row) {
    forall i: nat {:trigger Readable(tables, x, i)} :: Readable(tables, x, i)
  }

  /** None of the batches before batch i holds x. */
  ghost predicate Missed(tables: nat -> seq<Row>, except: set<string>, size: nat, x: Row, i: nat) {
    i == 0 || (Missed(tables, except, size, x, i - 1) && x !in Batch(tables, except, size, i - 1))
  }

  /** One more batch that leaves x out. */
  lemma FullStep(tables: nat -> seq<Row>, except: set<string>, size: nat, x: Row, i: nat,
                 before: set<Row>) returns (seen: set<Row>)
    requires Readable(tables, x, i) && size > 0 && x.user !in except
    requires x !in Batch(tables, except, size, i) && (i > 0 ==> LastId(tables, except, size, i).Some?)
    requires AllAbove(tables(1), except, x, LastId(tables, except, size, i), before)
    ensures |seen| == |before| + size && LastId(tables, except, size, i + 1).Some?
    ensures AllAbove(tables(1), except, x, LastId(tables, except, size, i + 1), seen)
  {
    seen := OneMoreFull(tables(i + 1), tables(1), except, LastId(tables, except, size, i), size, x, before);
  }

  /** Until a row that stays is yielded, every batch is full, so all the rows read lie above it in the first one. */
  lemma {:induction false} FullUntilYielded(tables: nat -> seq<Row>, except: set<string>, size: nat, x: Row, i: nat)
    returns (seen: set<Row>)
    requires AllReadable(tables, x) && size > 0 && x.user !in except && Missed(tables, except, size, x, i)
    ensures |seen| == Room(i, size) && (i > 0 ==> LastId(tables, except, size, i).Some?)
    ensures AllAbove(tables(1), except, x, LastId(tables, except, size, i), seen)
    decreases i
  {
    if i == 0 {
      seen := {};
    } else {
      var before := FullUntilYielded(tables, except, size, x, i - 1);
      assert Readable(tables, x, i - 1);
      seen := FullStep(tables, except, size, x, i - 1, before);
    }
  }

  lemma {:induction false} MissedOrYielded(tables: nat -> seq<Row>, except: set<string>, size: nat, x: Row, i: nat)
    ensures Missed(tables, except, size, x, i) || exists j: nat :: j < i && x in Batch(tables, except, size, j)
  {
    if i > 0 {
      MissedOrYielded(tables, except, size, x, i - 1);
      if !Missed(tables, except, size, x, i - 1) {
        var j: nat :| j < i - 1 && x in Batch(tables, except, size, j);
        assert j < i;
      } else if x in Batch(tables, except, size, i - 1) {
        var j: nat := i - 1;
        assert j < i && x in Batch(tables, except, size, j);
      }
    }
  }

  lemma StayerReadable(tables: nat -> seq<Row>, x: Row)
    requires Appending(tables) && Stays(tables, x)
    ensures AllReadable(tables, x)
  {
    forall i: nat ensures Readable(tables, x, i) {
      assert OnlyAbove(tables(1), tables(i + 1));
    }
  }

  /** With removals, and insertions above all others, whoever stays is yielded if the participants listed before
      at the first batch are fewer than the batches can hold. */
  lemma YieldedIfFits(tables: nat -> seq<Row>, except: set<string>, size: nat, x: Row)
    requires Appending(tables) && size > 0 && x.user !in except && Stays(tables, x)
    requires |Above(tables(1), except, x)| < Room(BatchCount(Total(tables, except), size), size)
    ensures Yielded(tables, except, size, x)
  {
    var n := BatchCount(Total(tables, except), size);
    MissedOrYielded(tables, except, size, x, n);
    if Missed(tables, except, size, x, n) {
      StayerReadable(tables, x);
      var seen := FullUntilYielded(tables, except, size, x, n);
      Subset(seen, Above(tables(1), except, x));
    }
  }

  /** Whoever stays a participant throughout is yielded at least once, whatever else is removed meanwhile. */
  lemma StayersYielded(tables: nat -> seq<Row>, except: set<string>, size: nat, x: Row)
    requires Shrinking(tables) && size > 0 && x.user !in except && Stays(tables, x)
    ensures Yielded(tables, except, size, x)
  {
    assert Within(tables(1), tables(0)) && x in tables(1);
    assert Appending(tables) by {
      forall i: nat, j: nat | i <= j ensures OnlyAbove(tables(i), tables(j)) {
        assert Within(tables(j), tables(i));
      }
    }
    FewerAbove(tables(0), tables(1), except, x);
    var total := Total(tables, except);
    EnoughRoom(total, size);
    YieldedIfFits(tables, except, size, x);
  }

  lemma FewerAbove(rows0: seq<Row>, rows1: seq<Row>, except: set<string>, x: Row)
    requires Sorted(rows0) && x in rows0 && x.user !in except && Within(rows1, rows0)
    ensures |Above(rows1, except, x)| < |Matching(rows0, except, None)|
  {
    var all := Matching(rows0, except, None);
    MatchingSorted(rows0, except, None);
    DistinctCard(all);
    assert x in all;
    Subset(Above(rows1, except, x), SetOf(all) - {x});
  }

  // ---- exactly when insertions hide a participant ----

  /** The rows of the batches before batch k. */
  ghost function Seen(tables: nat -> seq<Row>, except: set<string>, size: nat, k: nat): set<Row> {
    if k == 0 then {} else Seen(tables, except, size, k - 1) + SetOf(Batch(tables, except, size, k - 1))
  }

  lemma UnionBound(a: set<Row>, b: set<Row>)
    ensures |a + b| <= |a| + |b|
  {
    assert a + b == a + (b - a) && b == (b - a) + (a * b);
  }

  lemma {:induction false} SeenBound(tables: nat -> seq<Row>, except: set<string>, size: nat, k: nat)
    requires AllSorted(tables)
    ensures |Seen(tables, except, size, k)| <= Room(k, size)
  {
    if k > 0 {
      SeenBound(tables, except, size, k - 1);
      var b := Batch(tables, except, size, k - 1);
      QuerySorted(tables(k), except, LastId(tables, except, size, k - 1), size);
      DistinctCard(b);
      UnionBound(Seen(tables, except, size, k - 1), SetOf(b));
    }
  }

  /** A participant not yet read before a batch is in the batch or below it. */
  lemma ReadOrBelow(rows: seq<Row>, except: set<string>, last: Option<int>, size: nat, y: Row)
    requires Sorted(rows) && size > 0 && y in rows && y.user !in except
    requires last.Some? ==> y.id < last.value
    ensures var b := Query(rows, except, last, size); y in b || forall x :: x in b ==> y.id < x.id
  {
    if y !in Query(rows, except, last, size) {
      LeftOut(rows, except, last, size, y);
    }
  }

  /** When nothing is removed, the batches before batch k hold every participant down to where batch k starts. */
  lemma {:induction false} SeenDownTo(tables: nat -> seq<Row>, except: set<string>, size: nat, k: nat, y: Row)
    requires Growing(tables) && size > 0 && y in tables(1) && y.user !in except
    requires LastId(tables, except, size, k).Some? && y.id >= LastId(tables, except, size, k).value
    ensures y in Seen(tables, except, size, k)
  {
    var last := LastId(tables, except, size, k - 1);
    if last.Some? && y.id >= last.value {
      SeenDownTo(tables, except, size, k - 1, y);
    } else {
      assert Within(tables(1), tables(k));
      ReadOrBelow(tables(k), except, last, size, y);
    }
  }

  lemma AboveSeen(tables: nat -> seq<Row>, except: set<string>, size: nat, x: Row, i: nat, y: Row)
    requires Growing(tables) && size > 0 && x in Batch(tables, except, size, i)
    requires y in tables(1) && y.user !in except && y.id > x.id
    ensures y in Seen(tables, except, size, i + 1)
  {
    var last := LastId(tables, except, size, i);
    if last.Some? && y.id >= last.value {
      SeenDownTo(tables, except, size, i, y);
    } else {
      assert Within(tables(1), tables(i + 1));
      ReadOrBelow(tables(i + 1), except, last, size, y);
    }
  }

  lemma OneFewer(a: set<Row>, b: set<Row>, x: Row)
    requires a <= b && x in b && x !in a
    ensures |a| < |b|
  {
    Subset(a, b - {x});
  }

  lemma YieldedFits(tables: nat -> seq<Row>, except: set<string>, size: nat, x: Row, i: nat)
    requires Growing(tables) && size > 0 && x in Batch(tables, except, size, i)
    ensures |Above(tables(1), except, x)| < |Seen(tables, except, size, i + 1)|
  {
    var above, seen := Above(tables(1), except, x), Seen(tables, except, size, i + 1);
    assert above <= seen by {
      forall y | y in above ensures y in seen {
        AboveSeen(tables, except, size, x, i, y);
      }
    }
    assert x in SetOf(Batch(tables, except, size, i)) && x !in above;
    OneFewer(above, seen, x);
  }

  /** When rows are only inserted, above all others, a participant of the first batch's table is yielded if and
      only if fewer are listed before it there than the batches, counted before, can hold. */
  lemma InsertionsHideIff(tables: nat -> seq<Row>, except: set<string>, size: nat, x: Row)
    requires Growing(tables) && size > 0 && x in tables(1) && x.user !in except
    ensures Yielded(tables, except, size, x) <==>
            |Above(tables(1), except, x)| < Room(BatchCount(Total(tables, except), size), size)
  {
    var n := BatchCount(Total(tables, except), size);
    if Yielded(tables, except, size, x) {
      var i: nat :| i < n && x in Batch(tables, except, size, i);
      YieldedFits(tables, except, size, x, i);
      SeenBound(tables, except, size, i + 1);
      RoomGrows(i + 1, n, size);
    } else if |Above(tables(1), except, x)| < Room(n, size) {
      forall j: nat | 1 <= j ensures x in tables(j) {
        assert Within(tables(1), tables(j));
      }
      YieldedIfFits(tables, except, size, x);
    }
  }

  /** Newcomers with the ids n down to 1. */
  function Newcomers(n: nat): (rows: seq<Row>)
    ensures |rows| == n && Sorted(rows) && forall y :: y in rows ==> y.id > 0
  {
    seq(n, k requires 0 <= k < n => Row(n - k, seq(k + 1, _ => 'j')))
  }

  /** One participant at the count, `size` newcomers before the first batch. */
  function JoinedAfterCount(size: nat): nat -> seq<Row> {
    (i: nat) => if i == 0 then [Row(0, "stays")] else Newcomers(size) + [Row(0, "stays")]
  }

  lemma JoinedTables(size: nat)
    ensures var one, all := [Row(0, "stays")], Newcomers(size) + [Row(0, "stays")];
      && Sorted(one) && Sorted(all) && Row(0, "stays") in all && OnlyAbove(one, all) && Within(one, all)
  {
    var all := Newcomers(size) + [Row(0, "stays")];
    assert all[size] == Row(0, "stays");
    forall i, j | 0 <= i < j < |all| ensures all[i].id > all[j].id {
      assert all[i] in Newcomers(size);
    }
  }

  lemma JoinedGrowing(size: nat)
    ensures Growing(JoinedAfterCount(size)) && Stays(JoinedAfterCount(size), Row(0, "stays"))
  {
    var tables := JoinedAfterCount(size);
    JoinedTables(size);
    forall i: nat, j: nat | i <= j ensures OnlyAbove(tables(i), tables(j)) && Within(tables(i), tables(j)) {
      JoinedPair(size, i, j);
    }
  }

  lemma JoinedPair(size: nat, i: nat, j: nat)
    requires i <= j
    ensures OnlyAbove(JoinedAfterCount(size)(i), JoinedAfterCount(size)(j)) && Within(JoinedAfterCount(size)(i), JoinedAfterCount(size)(j))
  {
    JoinedTables(size);
  }

  lemma JoinedAbove(size: nat)
    ensures |Above(Newcomers(size) + [Row(0, "stays")], {}, Row(0, "stays"))| >= size
  {
    var above := Above(Newcomers(size) + [Row(0, "stays")], {}, Row(0, "stays"));
    DistinctCard(Newcomers(size));
    forall y | y in Newcomers(size) ensures y in above {
      assert y in Newcomers(size) + [Row(0, "stays")] && Kept(y, {}, None);
    }
    Subset(SetOf(Newcomers(size)), above);
  }

  lemma JoinedCount(size: nat)
    requires size > 0
    ensures BatchCount(Total(JoinedAfterCount(size), {}), size) == 1
  {
    var one := [Row(0, "stays")];
    assert one[..0] == [] && Matching([], {}, None) == [];
    assert Matching(one, {}, None) == one;
    CountBound(1, size, 0);
    CountBound(1, size, 1);
  }

  /** For every batch size, as many newcomers between the count and the first batch hide a participant who stays. */
  lemma InsertionCanHide(size: nat)
    requires size > 0
    ensures Growing(JoinedAfterCount(size)) && Stays(JoinedAfterCount(size), Row(0, "stays"))
    ensures !Yielded(JoinedAfterCount(size), {}, size, Row(0, "stays"))
  {
    var tables, x := JoinedAfterCount(size), Row(0, "stays");
    JoinedGrowing(size);
    JoinedAbove(size);
    JoinedCount(size);
    assert Room(1, size) == Room(0, size) + size;
    InsertionsHideIff(tables, {}, size, x);
  }
}
