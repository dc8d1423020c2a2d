/**
 * The hourly backfill said of rows, buckets and months themselves: the sums that rollup_task_usage_hourly_window of
 * core/migrations/102_task_usage_hourly_pipeline.up.sql takes, what a window does to a bucket, and the range of a run.
 */
module HourlySums {
  import opened Common
  import opened Calendar
  import opened HourlyBackfill

  /** The rows of one group that were created within one hour. */
  function RowsOf(raw: seq<Usage>, hour: int, group: Group): seq<Usage> {
    if raw == [] then []
    else
      var last := raw[|raw| - 1];
      RowsOf(raw[..|raw| - 1], hour, group) +
      if last.group == Some(group) && hour * HOUR <= last.createdAt < (hour + 1) * HOUR then [last] else []
  }

  function Sum(rows: seq<Usage>, of: Usage -> int): int {
    if rows == [] then 0 else Sum(rows[..|rows| - 1], of) + of(rows[|rows| - 1])
  }

  lemma SumSnoc(rows: seq<Usage>, r: Usage, of: Usage -> int)
    ensures Sum(rows + [r], of) == Sum(rows, of) + of(r)
  {
    assert (rows + [r])[..|rows|] == rows;
  }

  lemma InHour(r: Usage, key: Key)
    ensures InBucket(r, key) <==>
      r.group == Some(key.group) && key.hour * HOUR <= r.createdAt < (key.hour + 1) * HOUR
  {
  }

  lemma RowsSnoc(raw: seq<Usage>, key: Key)
    requires raw != []
    ensures var rest, last := raw[..|raw| - 1], raw[|raw| - 1];
      RowsOf(raw, key.hour, key.group) ==
        if InBucket(last, key) then RowsOf(rest, key.hour, key.group) + [last] else RowsOf(rest, key.hour, key.group)
  {
    InHour(raw[|raw| - 1], key);
  }

  /** A figure of the bucket is the sum of a field, if it begins at zero and grows by it. */
  lemma {:induction false} FigureIsSum(raw: seq<Usage>, key: Key, figure: Totals -> int, of: Usage -> int)
    requires figure(Totals(0, 0, 0, 0, 0, 0)) == 0
    requires forall t: Totals, r: Usage, tasks: nat :: figure(Add(t, r, tasks)) == figure(t) + of(r)
    ensures figure(Recompute(raw, key)) == Sum(RowsOf(raw, key.hour, key.group), of)
  {
    if raw != [] {
      var rest, last := raw[..|raw| - 1], raw[|raw| - 1];
      FigureIsSum(rest, key, figure, of);
      RowsSnoc(raw, key);
      SumSnoc(RowsOf(rest, key.hour, key.group), last, of);
    }
  }

  lemma {:induction false} EventsAreRows(rows: seq<Usage>)
    ensures Sum(rows, (r: Usage) => 1) == |rows|
  {
    if rows != [] {
      EventsAreRows(rows[..|rows| - 1]);
    }
  }

  lemma {:induction false} TasksCounted(raw: seq<Usage>, key: Key)
    ensures TasksOf(raw, key) == (set r | r in RowsOf(raw, key.hour, key.group) :: r.task)
    ensures Recompute(raw, key).tasks == |TasksOf(raw, key)|
  {
    if raw != [] {
      var rest, last := raw[..|raw| - 1], raw[|raw| - 1];
      TasksCounted(rest, key);
      RowsSnoc(raw, key);
      TasksSnoc(rest, last, key);
      assert raw == rest + [last];
    }
  }

  lemma TasksSnoc(rest: seq<Usage>, last: Usage, key: Key)
    ensures TasksOf(rest + [last], key) == TasksOf(rest, key) + if InBucket(last, key) then {last.task} else {}
  {
  }

  /** Each of a bucket's figures, said of the rows of its group created in its hour. */
  lemma BucketAddsUp(raw: seq<Usage>, key: Key)
    ensures var rows, b := RowsOf(raw, key.hour, key.group), Recompute(raw, key);
      && b.input == Sum(rows, (r: Usage) => r.input)
      && b.output == Sum(rows, (r: Usage) => r.output)
      && b.cacheRead == Sum(rows, (r: Usage) => r.cacheRead)
      && b.cacheWrite == Sum(rows, (r: Usage) => r.cacheWrite)
      && b.tasks == |set r | r in rows :: r.task|
      && b.events == |rows|
  {
    FigureIsSum(raw, key, (t: Totals) => t.input, (r: Usage) => r.input);
    FigureIsSum(raw, key, (t: Totals) => t.output, (r: Usage) => r.output);
    FigureIsSum(raw, key, (t: Totals) => t.cacheRead, (r: Usage) => r.cacheRead);
    FigureIsSum(raw, key, (t: Totals) => t.cacheWrite, (r: Usage) => r.cacheWrite);
    FigureIsSum(raw, key, (t: Totals) => t.events, (r: Usage) => 1);
    EventsAreRows(RowsOf(raw, key.hour, key.group));
    TasksCounted(raw, key);
  }

  // ---------------------------------------------------------------------------------------------
  // All buckets together
  // ---------------------------------------------------------------------------------------------

  function Grouped(raw: seq<Usage>): seq<Usage> {
    if raw == [] then []
    else Grouped(raw[..|raw| - 1]) + if raw[|raw| - 1].group.Some? then [raw[|raw| - 1]] else []
  }

  function SumOver(table: map<Key, Totals>, keys: seq<Key>, figure: Totals -> int): int {
    if keys == [] then 0
    else SumOver(table, keys[1..], figure) + if keys[0] in table then figure(table[keys[0]]) else 0
  }

  function SumAt(raw: seq<Usage>, keys: seq<Key>, of: Usage -> int): int {
    if keys == [] then 0 else SumAt(raw, keys[1..], of) + Sum(RowsOf(raw, keys[0].hour, keys[0].group), of)
  }

  lemma {:induction false} NothingAt(keys: seq<Key>, of: Usage -> int)
    ensures SumAt([], keys, of) == 0
  {
    if keys != [] {
      NothingAt(keys[1..], of);
    }
  }

  lemma {:induction false} LastRowOnce(raw: seq<Usage>, keys: seq<Key>, of: Usage -> int)
    requires raw != [] && Distinct(keys)
    ensures var last := raw[|raw| - 1];
      SumAt(raw, keys, of) == SumAt(raw[..|raw| - 1], keys, of) +
        if last.group.Some? && Key(last.createdAt / HOUR, last.group.value) in keys then of(last) else 0
  {
    if keys != [] {
      LastRowOnce(raw, keys[1..], of);
      assert keys == [keys[0]] + keys[1..];
      assert keys[0] !in keys[1..];
      RowInBucket(raw, keys[0], of);
    }
  }

  lemma RowInBucket(raw: seq<Usage>, key: Key, of: Usage -> int)
    requires raw != []
    ensures var last := raw[|raw| - 1];
      Sum(RowsOf(raw, key.hour, key.group), of) == Sum(RowsOf(raw[..|raw| - 1], key.hour, key.group), of) +
        if last.group.Some? && Key(last.createdAt / HOUR, last.group.value) == key then of(last) else 0
  {
    RowsSnoc(raw, key);
    SumSnoc(RowsOf(raw[..|raw| - 1], key.hour, key.group), raw[|raw| - 1], of);
  }

  lemma {:induction false} AllKeysAddUp(raw: seq<Usage>, keys: seq<Key>, of: Usage -> int)
    requires Distinct(keys) && KeysOf(raw) <= Elements(keys)
    ensures SumAt(raw, keys, of) == Sum(Grouped(raw), of)
    decreases |raw|
  {
    if raw == [] {
      NothingAt(keys, of);
    } else {
      var rest, last := raw[..|raw| - 1], raw[|raw| - 1];
      AllKeysAddUp(rest, keys, of);
      LastRowOnce(raw, keys, of);
      SumSnoc(Grouped(rest), last, of);
      assert Grouped(raw) == if last.group.Some? then Grouped(rest) + [last] else Grouped(rest);
      if last.group.Some? {
        assert last in raw;
        assert Key(last.createdAt / HOUR, last.group.value) in KeysOf(raw);
      }
    }
  }

  lemma {:induction false} TruthAddsUp(raw: seq<Usage>, keys: seq<Key>, figure: Totals -> int, of: Usage -> int)
    requires forall key :: key in keys ==> key in KeysOf(raw)
    requires forall key :: figure(Recompute(raw, key)) == Sum(RowsOf(raw, key.hour, key.group), of)
    ensures SumOver(Truth(raw), keys, figure) == SumAt(raw, keys, of)
  {
    if keys != [] {
      assert keys[0] in KeysOf(raw);
      TruthAddsUp(raw, keys[1..], figure, of);
    }
  }

  /** One figure over all the buckets the raw rows call for. */
  lemma FigureAddsUp(raw: seq<Usage>, keys: seq<Key>, figure: Totals -> int, of: Usage -> int)
    requires Distinct(keys) && Elements(keys) == KeysOf(raw)
    requires forall key :: figure(Recompute(raw, key)) == Sum(RowsOf(raw, key.hour, key.group), of)
    ensures SumOver(Truth(raw), keys, figure) == Sum(Grouped(raw), of)
  {
    assert forall key :: key in keys ==> key in Elements(keys);
    AllKeysAddUp(raw, keys, of);
    TruthAddsUp(raw, keys, figure, of);
  }

  /** Nothing is lost or counted twice: together the buckets hold, in each figure, what the grouped rows hold. */
  lemma EveryRowCountedOnce(raw: seq<Usage>, keys: seq<Key>)
    requires Distinct(keys) && Elements(keys) == KeysOf(raw)
    ensures SumOver(Truth(raw), keys, (t: Totals) => t.input) == Sum(Grouped(raw), (r: Usage) => r.input)
    ensures SumOver(Truth(raw), keys, (t: Totals) => t.output) == Sum(Grouped(raw), (r: Usage) => r.output)
    ensures SumOver(Truth(raw), keys, (t: Totals) => t.cacheRead) == Sum(Grouped(raw), (r: Usage) => r.cacheRead)
    ensures SumOver(Truth(raw), keys, (t: Totals) => t.cacheWrite) == Sum(Grouped(raw), (r: Usage) => r.cacheWrite)
    ensures SumOver(Truth(raw), keys, (t: Totals) => t.events) == |Grouped(raw)|
  {
    forall key {
      BucketAddsUp(raw, key);
    }
    assert forall key :: Recompute(raw, key).events == Sum(RowsOf(raw, key.hour, key.group), (r: Usage) => 1) by {
      forall key ensures Recompute(raw, key).events == Sum(RowsOf(raw, key.hour, key.group), (r: Usage) => 1) {
        EventsAreRows(RowsOf(raw, key.hour, key.group));
      }
    }
    FigureAddsUp(raw, keys, (t: Totals) => t.input, (r: Usage) => r.input);
    FigureAddsUp(raw, keys, (t: Totals) => t.output, (r: Usage) => r.output);
    FigureAddsUp(raw, keys, (t: Totals) => t.cacheRead, (r: Usage) => r.cacheRead);
    FigureAddsUp(raw, keys, (t: Totals) => t.cacheWrite, (r: Usage) => r.cacheWrite);
    FigureAddsUp(raw, keys, (t: Totals) => t.events, (r: Usage) => 1);
    EventsAreRows(Grouped(raw));
  }

  // ---------------------------------------------------------------------------------------------
  // One window, bucket by bucket
  // ---------------------------------------------------------------------------------------------

  /** Last updated within the range, or, where no update is recorded, created within it. */
  predicate UpdatedWithin(r: Usage, from: int, to: int) {
    match r.updatedAt case Some(instant) => from <= instant < to case None => from <= r.createdAt < to
  }

  lemma {:induction false} RowsExactly(raw: seq<Usage>, key: Key)
    ensures forall r :: r in RowsOf(raw, key.hour, key.group) <==> r in raw && InBucket(r, key)
  {
    if raw != [] {
      var rest, last := raw[..|raw| - 1], raw[|raw| - 1];
      RowsExactly(rest, key);
      RowsSnoc(raw, key);
      assert raw == rest + [last];
    }
  }

  lemma RowsOrNone(raw: seq<Usage>, key: Key)
    ensures key in KeysOf(raw) <==> RowsOf(raw, key.hour, key.group) != []
  {
    var rows := RowsOf(raw, key.hour, key.group);
    RowsExactly(raw, key);
    if rows != [] {
      assert rows[0] in rows && rows[0] in raw;
    }
    if key in KeysOf(raw) {
      var r :| r in raw && r.group.Some? && key == Key(r.createdAt / HOUR, r.group.value);
      assert InBucket(r, key);
    }
  }

  /** A bucket is recomputed if one of its rows was updated within the window or it was queued before the window's end. */
  ghost predicate Called(raw: seq<Usage>, queue: set<Queued>, from: int, to: int, key: Key) {
    || (exists r :: r in RowsOf(raw, key.hour, key.group) && UpdatedWithin(r, from, to))
    || (exists q :: q in queue && q.key == key && q.enqueuedAt < to)
  }

  lemma CalledIsDirty(raw: seq<Usage>, queue: set<Queued>, from: int, to: int, key: Key)
    ensures key in Dirty(raw, queue, from, to) <==> Called(raw, queue, from, to, key)
  {
    RowsExactly(raw, key);
    StampedExactly(raw, key, from, to);
    if r :| r in RowsOf(raw, key.hour, key.group) && UpdatedWithin(r, from, to) {
      assert from <= Stamp(r) < to;
    }
    if TouchedWithin(raw, key, from, to) {
      var r :| r in raw && InBucket(r, key) && from <= Stamp(r) < to;
      assert UpdatedWithin(r, from, to);
    }
  }

  /** What a window does to each bucket and to the queue. */
  lemma WindowDoes(raw: seq<Usage>, r: Rollup, from: int, to: int, key: Key)
    requires from < to
    ensures var table := Window(raw, r, from, to).table;
      if !Called(raw, r.queue, from, to, key) then
        (key in table <==> key in r.table) && (key in table ==> table[key] == r.table[key])
      else if RowsOf(raw, key.hour, key.group) == [] then key !in table
      else key in table && table[key] == Recompute(raw, key)
    ensures forall q :: q in Window(raw, r, from, to).queue <==> q in r.queue && q.enqueuedAt >= to
  {
    CalledIsDirty(raw, r.queue, from, to, key);
    RowsOrNone(raw, key);
  }

  // ---------------------------------------------------------------------------------------------
  // The range of a run
  // ---------------------------------------------------------------------------------------------

  lemma {:induction false} ExtremesReached(raw: seq<Usage>) returns (first: nat, last: nat)
    requires raw != []
    ensures first < |raw| && raw[first].createdAt == Earliest(raw)
    ensures last < |raw| && raw[last].createdAt == Latest(raw)
  {
    var n, rest := |raw| - 1, raw[..|raw| - 1];
    first, last := n, n;
    if rest != [] {
      var a, b := ExtremesReached(rest);
      first := if raw[n].createdAt < Earliest(rest) then n else a;
      last := if raw[n].createdAt > Latest(rest) then n else b;
    }
  }

  /** A run is refused exactly if it was not forced and rows are older than the month it is told to go back to. */
  lemma RefusedExactly(starts: int -> int, raw: seq<Usage>, monthsBack: int, forcePartial: bool, now: int)
    requires Increasing(starts)
    ensures Abandons(starts, raw, monthsBack, forcePartial, now) <==>
      !forcePartial && monthsBack > 0 && exists r :: r in raw && r.createdAt < starts(Slot(starts, now) - monthsBack)
  {
    if raw != [] {
      var cut := Slot(starts, now) - monthsBack;
      Extremes(raw);
      var first, last := ExtremesReached(raw);
      assert raw[first] in raw;
      BeforeMonth(starts, Earliest(raw), cut);
    }
  }

  lemma BeforeMonth(starts: int -> int, t: int, k: int)
    requires Increasing(starts)
    ensures t < starts(k) <==> Slot(starts, t) < k
  {
    SlotExactly(starts, t, Slot(starts, t));
    InOrder(starts, k, Slot(starts, t));
    InOrder(starts, Slot(starts, t) + 1, k);
  }

  /** The range ends with the month of the newest row and begins with that of the oldest, or with the month told. */
  lemma RangeExactly(starts: int -> int, raw: seq<Usage>, monthsBack: int, now: int)
    requires Increasing(starts) && raw != []
    ensures var first, end := FirstMonth(starts, raw, monthsBack, now), EndMonth(starts, raw);
      && (forall r :: r in raw ==> r.createdAt < starts(end))
      && (exists r :: r in raw && starts(end - 1) <= r.createdAt)
      && (if monthsBack > 0 && exists r :: r in raw && r.createdAt < starts(Slot(starts, now) - monthsBack)
          then first == Slot(starts, now) - monthsBack
          else (forall r :: r in raw ==> starts(first) <= r.createdAt) &&
               exists r :: r in raw && r.createdAt < starts(first + 1))
  {
    RangeHoldsCreations(starts, raw);
    var first, last := ExtremesReached(raw);
    assert raw[first] in raw && raw[last] in raw;
    Extremes(raw);
    RefusedExactly(starts, raw, monthsBack, false, now);
    SlotExactly(starts, Earliest(raw), Slot(starts, Earliest(raw)));
    SlotExactly(starts, Latest(raw), Slot(starts, Latest(raw)));
  }
}
