/** `IncPairDateVal`: a counter with two slots, the running period and the one cast before it. Times and the
    period length are in milliseconds; a period's key is its index. */
module PeriodCounter {
  import opened Text

  /** `castedValue`: null at first, undefined after a reset, and then a number. */
  datatype Slot = Null | Undefined | Number(value: int)

  datatype Counter = Counter(casted: Slot, castedKey: Option<int>, current: int, currentKey: int)

  /** `keyName`: the period a time lies in. */
  function Key(t: int, period: int): int
    requires period > 0
  {
    t / period
  }

  /** Division that truncates toward zero, as `moment.diff` does. */
  function Truncate(a: int, b: int): int
    requires b > 0
  {
    if a >= 0 then a / b else -((-a) / b)
  }

  /** services/stats/index.js:75-82: two or more whole periods from the start of period `key` to time t. */
  predicate IsDateDiffCritical(key: int, t: int, period: int)
    requires period > 0
  {
    var diff := Truncate(key * period - t, period);
    diff >= 2 || diff <= -2
  }

  /** services/stats/index.js:62-73 */
  function Cast(c: Counter, t: int, period: int): Counter
    requires period > 0
  {
    Counter(Number(if IsDateDiffCritical(c.currentKey, t, period) then 0 else c.current), Some(c.currentKey), 0, Key(t, period))
  }

  function Roll(c: Counter, t: int, period: int): Counter
    requires period > 0
  {
    if Key(t, period) != c.currentKey then Cast(c, t, period) else c
  }

  /** services/stats/index.js:48-60; the second part is what the call returns. */
  function Retrieve(c: Counter, t: int, period: int): (Counter, Slot)
    requires period > 0
  {
    var c' := Roll(c, t, period);
    (c', if Some(Key(t, period)) != c'.castedKey then c'.casted else Undefined)
  }

  datatype Event = Inc(n: int, at: int) | Read(at: int)

  function Apply(c: Counter, e: Event, period: int): Counter
    requires period > 0
  {
    match e
    case Inc(n, at) => var c' := Roll(c, at, period); c'.(current := c'.current + n)
    case Read(at) => Retrieve(c, at, period).0
  }

  function Run(c: Counter, es: seq<Event>, period: int): Counter
    requires period > 0
  {
    if es == [] then c else Apply(Run(c, es[..|es| - 1], period), es[|es| - 1], period)
  }

  /** services/stats/index.js:29-34,84-90: an empty counter at time t. */
  function Fresh(slot: Slot, t: int, period: int): Counter
    requires period > 0
  {
    Counter(slot, None, 0, Key(t, period))
  }

  // ---- the reference: a full history ----

  /** All increments of one period. */
  function SumIn(es: seq<Event>, key: int, period: int): int
    requires period > 0
  {
    if es == [] then 0
    else
      var e := es[|es| - 1];
      SumIn(es[..|es| - 1], key, period) + if e.Inc? && Key(e.at, period) == key then e.n else 0
  }

  function LastTime(start: int, es: seq<Event>): int {
    if es == [] then start else es[|es| - 1].at
  }

  /** Times never go back. */
  predicate InOrder(start: int, es: seq<Event>) {
    es != [] ==> InOrder(start, es[..|es| - 1]) && LastTime(start, es[..|es| - 1]) <= es[|es| - 1].at
  }

  lemma DivUnique(s: int, p: int, q: int, r: int)
    requires p > 0 && 0 <= r < p && s == q * p + r
    ensures s / p == q
  {
    var d := q - s / p;
    assert d * p == s % p - r;
  }

  lemma DivSign(s: int, p: int)
    requires p > 0
    ensures s / p >= 0 <==> s >= 0
  {
  }

  lemma KeyShift(t: int, key: int, period: int)
    requires period > 0
    ensures (t - key * period) / period == Key(t, period) - key
    ensures Key(t, period) >= key <==> t >= key * period
  {
    var q, r := t / period, t % period;
    assert t == q * period + r;
    assert (q - key) * period == q * period - key * period;
    DivUnique(t - key * period, period, q - key, r);
    DivSign(t - key * period, period);
  }

  lemma KeyMonotone(a: int, b: int, period: int)
    requires period > 0 && a <= b
    ensures Key(a, period) <= Key(b, period)
  {
    KeyShift(a, Key(a, period), period);
    KeyShift(b, Key(a, period), period);
  }

  /** A later time is critical exactly when at least one whole period lies in between. */
  lemma CriticalIff(key: int, t: int, period: int)
    requires period > 0 && Key(t, period) >= key
    ensures IsDateDiffCritical(key, t, period) <==> Key(t, period) >= key + 2
  {
    KeyShift(t, key, period);
    assert -(key * period - t) == t - key * period;
  }

  lemma {:induction false} NothingLater(start: int, es: seq<Event>, key: int, period: int)
    requires period > 0 && InOrder(start, es) && key > Key(LastTime(start, es), period)
    ensures SumIn(es, key, period) == 0
  {
    if es != [] {
      var front := es[..|es| - 1];
      KeyMonotone(LastTime(start, front), es[|es| - 1].at, period);
      NothingLater(start, front, key, period);
    }
  }

  // ---- the two slots agree with the history ----

  /** The slots in period `key`, given the sums of that period and of the one before. */
  ghost predicate Slots(c: Counter, slot: Slot, startKey: int, key: int, sum: int, before: int) {
    && c.currentKey == key >= startKey && c.current == sum
    && (if key == startKey then c.casted == slot && c.castedKey == None
        else c.casted == Number(before) && c.castedKey.Some? && c.castedKey.value < key)
  }

  ghost predicate Represents(c: Counter, slot: Slot, start: int, es: seq<Event>, period: int)
    requires period > 0
  {
    var key := Key(LastTime(start, es), period);
    Slots(c, slot, Key(start, period), key, SumIn(es, key, period), SumIn(es, key - 1, period))
  }

  lemma CastSlots(c: Counter, slot: Slot, startKey: int, key: int, sum: int, before: int, t: int, period: int)
    requires period > 0 && Slots(c, slot, startKey, key, sum, before) && Key(t, period) > key
    ensures Slots(Cast(c, t, period), slot, startKey, Key(t, period), 0, if Key(t, period) == key + 1 then sum else 0)
  {
    CriticalIff(key, t, period);
  }

  /** Rolling to a later time makes the slots say what the history says at that time. */
  lemma RollRepresents(c: Counter, slot: Slot, start: int, es: seq<Event>, t: int, period: int)
    requires period > 0 && InOrder(start, es) && LastTime(start, es) <= t && Represents(c, slot, start, es, period)
    ensures var k := Key(t, period);
      Slots(Roll(c, t, period), slot, Key(start, period), k, SumIn(es, k, period), SumIn(es, k - 1, period))
  {
    var key, k := Key(LastTime(start, es), period), Key(t, period);
    KeyMonotone(LastTime(start, es), t, period);
    if k > key {
      CastSlots(c, slot, Key(start, period), key, SumIn(es, key, period), SumIn(es, key - 1, period), t, period);
      NothingLater(start, es, k, period);
      if k > key + 1 {
        NothingLater(start, es, k - 1, period);
      }
    }
  }

  lemma {:induction false} RunRepresents(slot: Slot, start: int, es: seq<Event>, period: int)
    requires period > 0 && InOrder(start, es)
    ensures Represents(Run(Fresh(slot, start, period), es, period), slot, start, es, period)
  {
    if es != [] {
      var front, e := es[..|es| - 1], es[|es| - 1];
      RunRepresents(slot, start, front, period);
      var c := Run(Fresh(slot, start, period), front, period);
      RollRepresents(c, slot, start, front, e.at, period);
    }
  }

  /** Whatever happened before, in order, reading at time t gives the sum of all increments in the period just
      before the one of t, across gaps of any length, as soon as a period has passed since the start; before
      that it gives the initial slot. */
  lemma RetrieveIsPreviousPeriod(slot: Slot, start: int, es: seq<Event>, t: int, period: int)
    requires period > 0 && InOrder(start, es) && LastTime(start, es) <= t
    ensures var r := Retrieve(Run(Fresh(slot, start, period), es, period), t, period).1;
      r == if Key(t, period) == Key(start, period) then slot else Number(SumIn(es, Key(t, period) - 1, period))
  {
    RunRepresents(slot, start, es, period);
    RollRepresents(Run(Fresh(slot, start, period), es, period), slot, start, es, t, period);
  }

  /** Whatever the times, in order or not, the casted period is never the current one: a read never meets the case in
      which it would return nothing for that reason. */
  lemma {:induction false} CastedIsAnother(slot: Slot, start: int, es: seq<Event>, t: int, period: int)
    requires period > 0
    ensures var c := Run(Fresh(slot, start, period), es, period);
      && c.castedKey != Some(c.currentKey)
      && Retrieve(c, t, period).1 == Roll(c, t, period).casted
  {
    if es != [] {
      CastedIsAnother(slot, start, es[..|es| - 1], es[|es| - 1].at, period);
    }
  }

  lemma RunOneMore(c: Counter, es: seq<Event>, e: Event, period: int)
    requires period > 0
    ensures Run(c, es + [e], period) == Apply(Run(c, es, period), e, period)
  {
    assert (es + [e])[..|es|] == es;
  }

  lemma OneMoreInOrder(start: int, es: seq<Event>, e: Event)
    ensures InOrder(start, es + [e]) <==> InOrder(start, es) && LastTime(start, es) <= e.at
  {
    assert (es + [e])[..|es|] == es;
  }

  lemma SumOneMore(es: seq<Event>, e: Event, key: int, period: int)
    requires period > 0
    ensures SumIn(es + [e], key, period) == SumIn(es, key, period) + if e.Inc? && Key(e.at, period) == key then e.n else 0
  {
    assert (es + [e])[..|es|] == es;
  }

  /** The current slot after an increment is what the history counts in its period. */
  lemma CountedSoFar(slot: Slot, start: int, es: seq<Event>, n: int, t: int, period: int)
    requires period > 0
    ensures InOrder(start, es + [Inc(n, t)]) ==>
      Roll(Run(Fresh(slot, start, period), es, period), t, period).current + n == SumIn(es + [Inc(n, t)], Key(t, period), period)
  {
    OneMoreInOrder(start, es, Inc(n, t));
    SumOneMore(es, Inc(n, t), Key(t, period), period);
    if InOrder(start, es + [Inc(n, t)]) {
      RunRepresents(slot, start, es, period);
      RollRepresents(Run(Fresh(slot, start, period), es, period), slot, start, es, t, period);
    }
  }

  /** And what a read returns is what it counts in the period before. */
  lemma CountedBefore(slot: Slot, start: int, es: seq<Event>, t: int, period: int)
    requires period > 0
    ensures InOrder(start, es + [Read(t)]) ==>
      Retrieve(Run(Fresh(slot, start, period), es, period), t, period).1 ==
        if Key(t, period) == Key(start, period) then slot else Number(SumIn(es + [Read(t)], Key(t, period) - 1, period))
  {
    OneMoreInOrder(start, es, Read(t));
    SumOneMore(es, Read(t), Key(t, period) - 1, period);
    if InOrder(start, es + [Read(t)]) {
      RetrieveIsPreviousPeriod(slot, start, es, t, period);
    }
  }

  // ---- the object ----

  /** The counter, with the history it stands for: the calls since it was made or last reset. */
  class IncPairDateVal {
    const period: int
    var casted: Slot
    var castedKey: Option<int>
    var current: int
    var currentKey: int
    ghost var start: int
    ghost var slot: Slot
    ghost var history: seq<Event>

    ghost predicate Valid()
      reads this
    {
      period > 0 && View() == Run(Fresh(slot, start, period), history, period)
    }

    constructor (period: int, now: int)
      requires period > 0
      ensures Valid() && this.period == period && history == [] && start == now && slot == Null
    {
      this.period := period;
      casted, castedKey, current, currentKey := Null, None, 0, now / period;
      start, slot, history := now, Null, [];
    }

    ghost function View(): Counter
      reads this
    {
      Counter(casted, castedKey, current, currentKey)
    }

    method CastTo(t: int)
      requires period > 0
      modifies this`casted, this`castedKey, this`current, this`currentKey
      ensures View() == Cast(old(View()), t, period)
    {
      if IsDateDiffCritical(currentKey, t, period) {
        casted := Number(0);
      } else {
        casted := Number(current);
      }
      castedKey := Some(currentKey);
      current := 0;
      currentKey := Key(t, period);
    }

    /** The slots at time t. */
    method RollTo(t: int)
      requires period > 0
      modifies this`casted, this`castedKey, this`current, this`currentKey
      ensures View() == Roll(old(View()), t, period)
    {
      if Key(t, period) != currentKey {
        CastTo(t);
      }
    }

    /** Returns what has been counted so far in the period of t, if times have not gone back. */
    method Increment(n: int, t: int) returns (value: int)
      requires Valid()
      modifies this
      ensures Valid() && history == old(history) + [Inc(n, t)] && start == old(start) && slot == old(slot)
      ensures InOrder(start, history) ==> value == SumIn(history, Key(t, period), period)
    {
      RollTo(t);
      current := current + n;
      value := current;
      RunOneMore(Fresh(slot, start, period), history, Inc(n, t), period);
      CountedSoFar(slot, start, history, n, t, period);
      history := history + [Inc(n, t)];
    }

    /** Returns what was counted in the period before the one of t, if times have not gone back; in the first
        period, the initial value. */
    method RetrieveAt(t: int) returns (value: Slot)
      requires Valid()
      modifies this
      ensures Valid() && history == old(history) + [Read(t)] && start == old(start) && slot == old(slot)
      ensures InOrder(start, history) ==>
                value == if Key(t, period) == Key(start, period) then slot else Number(SumIn(history, Key(t, period) - 1, period))
    {
      RollTo(t);
      value := if castedKey != Some(Key(t, period)) then casted else Undefined;
      RunOneMore(Fresh(slot, start, period), history, Read(t), period);
      CountedBefore(slot, start, history, t, period);
      history := history + [Read(t)];
    }

    /** Forgets the history. */
    method Reset(t: int)
      requires Valid()
      modifies this
      ensures Valid() && history == [] && start == t && slot == Undefined
    {
      casted, castedKey, current, currentKey := Undefined, None, 0, Key(t, period);
      start, slot, history := t, Undefined, [];
    }
  }
}
