/** `scanWithPagination` and `countWithMatch`: a window of the matching keys, and their number, out of a scan
    that brings the keys in batches of any size, empty ones included. */
module ScanPager {
  import opened Text

  function Max(a: int, b: int): int { if a >= b then a else b }

  /** One scan call: the next cursor, zero at the end, and the keys of the batch the cursor points at. */
  function Scan(batches: seq<seq<string>>, cursor: nat): (nat, seq<string>)
    requires cursor < |batches|
  {
    (if cursor + 1 < |batches| then cursor + 1 else 0, batches[cursor])
  }

  /** All keys of the scan, in the order they come. */
  function Keys(batches: seq<seq<string>>): seq<string> {
    if batches == [] then [] else Keys(batches[..|batches| - 1]) + batches[|batches| - 1]
  }

  /** The keys from position `offset` on, as many as the limit allows; at least one, whatever the limit. */
  function Window(keys: seq<string>, offset: int, limit: int): seq<string> {
    var from := Min(Max(offset, 0), |keys|);
    keys[from..Min(from + Max(limit, 1), |keys|)]
  }

  lemma {:induction false} KeysPrefix(batches: seq<seq<string>>, n: nat)
    requires n <= |batches|
    ensures Keys(batches[..n]) <= Keys(batches)
  {
    if n == |batches| {
      assert batches[..n] == batches;
    } else {
      var shorter := batches[..|batches| - 1];
      KeysPrefix(shorter, n);
      assert shorter[..n] == batches[..n];
    }
  }

  /** One more batch read. */
  lemma KeysNext(batches: seq<seq<string>>, n: nat)
    requires n < |batches|
    ensures Keys(batches[..n + 1]) == Keys(batches[..n]) + batches[n]
    ensures Keys(batches[..n]) + batches[n] <= Keys(batches)
  {
    assert batches[..n + 1][..n] == batches[..n];
    KeysPrefix(batches, n + 1);
  }

  /** One more key grows a window that is not full exactly when it lies at or after the offset. */
  lemma WindowNext(keys: seq<string>, key: string, offset: int, limit: int)
    requires |Window(keys, offset, limit)| < Max(limit, 1)
    ensures Window(keys + [key], offset, limit) == Window(keys, offset, limit) + if |keys| >= offset then [key] else []
  {
  }

  /** A full window does not change with the keys that follow. */
  lemma WindowFull(keys: seq<string>, all: seq<string>, offset: int, limit: int)
    requires keys <= all && |Window(keys, offset, limit)| == Max(limit, 1)
    ensures Window(all, offset, limit) == Window(keys, offset, limit)
  {
  }

  /** lib/redis.js:45-53: the keys of one batch, after `before`; `full` when the limit is reached. */
  method TakeBatch(items: seq<string>, offset: int, limit: int, results: seq<string>, scanned: nat,
                   ghost before: seq<string>)
    returns (results': seq<string>, scanned': nat, full: bool)
    requires results == Window(before, offset, limit) && |results| < Max(limit, 1) && scanned == |before|
    ensures results' == Window(before + items, offset, limit)
    ensures full <==> |results'| == Max(limit, 1)
    ensures !full ==> scanned' == |before + items|
  {
    results', scanned', full := results, scanned, false;
    for j := 0 to |items|
      invariant scanned' == |before| + j
      invariant results' == Window(before + items[..j], offset, limit) && |results'| < Max(limit, 1)
    {
      ghost var seen := before + items[..j];
      WindowNext(seen, items[j], offset, limit);
      assert seen + [items[j]] == before + items[..j + 1];
      if scanned' >= offset {
        results' := results' + [items[j]];
        if |results'| >= limit {
          WindowFull(before + items[..j + 1], before + items, offset, limit);
          return results', scanned', true;
        }
      }
      scanned' := scanned' + 1;
    }
    assert items[..|items|] == items;
  }

  /** However the keys are batched, the result is the window of all of them. */
  method ScanWithPagination(batches: seq<seq<string>>, offset: int, limit: int) returns (results: seq<string>)
    requires batches != []
    ensures results == Window(Keys(batches), offset, limit)
  {
    results := [];
    var scanned: nat := 0;
    var cursor: nat, started := 0, false;
    ghost var n: nat := 0;
    while !started || cursor != 0
      invariant n <= |batches| && started == (n > 0)
      invariant cursor == if n < |batches| then n else 0
      invariant scanned == |Keys(batches[..n])|
      invariant results == Window(Keys(batches[..n]), offset, limit) && |results| < Max(limit, 1)
      decreases |batches| - n
    {
      started := true;
      var response := Scan(batches, cursor);
      cursor := response.0;
      var items := response.1;
      ghost var before := Keys(batches[..n]);
      KeysNext(batches, n);
      var full;
      results, scanned, full := TakeBatch(items, offset, limit, results, scanned, before);
      if full {
        WindowFull(before + items, Keys(batches), offset, limit);
        return;
      }
      n := n + 1;
    }
    assert batches[..n] == batches;
  }

  method CountWithMatch(batches: seq<seq<string>>) returns (matchCount: nat)
    requires batches != []
    ensures matchCount == |Keys(batches)|
  {
    matchCount := 0;
    var cursor: nat, started := 0, false;
    ghost var n: nat := 0;
    while !started || cursor != 0
      invariant n <= |batches| && started == (n > 0)
      invariant cursor == if n < |batches| then n else 0
      invariant matchCount == |Keys(batches[..n])|
      decreases |batches| - n
    {
      started := true;
      KeysNext(batches, n);
      var response := Scan(batches, cursor);
      cursor := response.0;
      matchCount := matchCount + |response.1|;
      n := n + 1;
    }
    assert batches[..n] == batches;
  }

  /** The limit is kept exactly when it is positive, or zero with nothing at or after the offset. */
  lemma LimitKeptIff(keys: seq<string>, offset: int, limit: int)
    ensures |Window(keys, offset, limit)| <= limit <==> limit >= 1 || (limit == 0 && |keys| <= Max(offset, 0))
  {
    var from := Min(Max(offset, 0), |keys|);
    assert |Window(keys, offset, limit)| == Min(Max(limit, 1), |keys| - from);
  }

  /** The first `pages` windows of `limit` keys each, one after the other. */
  function Pages(keys: seq<string>, limit: nat, pages: nat): seq<string> {
    if pages == 0 then [] else Pages(keys, limit, pages - 1) + Window(keys, (pages - 1) * limit, limit)
  }

  lemma WindowAfter(keys: seq<string>, at: nat, limit: nat)
    requires limit >= 1
    ensures keys[..Min(at, |keys|)] + Window(keys, at, limit) == keys[..Min(at + limit, |keys|)]
  {
  }

  /** Consecutive windows partition the keys: together they are the keys so far, each once and in order,
      and all of them once the pages make up the count. */
  lemma {:induction false} PagesPartition(keys: seq<string>, limit: nat, pages: nat)
    requires limit >= 1
    ensures Pages(keys, limit, pages) == keys[..Min(pages * limit, |keys|)]
    ensures |keys| <= pages * limit ==> Pages(keys, limit, pages) == keys
  {
    if pages > 0 {
      PagesPartition(keys, limit, pages - 1);
      assert pages * limit == (pages - 1) * limit + limit;
      WindowAfter(keys, (pages - 1) * limit, limit);
    }
    assert |keys| <= pages * limit ==> keys[..Min(pages * limit, |keys|)] == keys;
  }
}
