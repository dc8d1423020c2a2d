/**
 * core/cmd/backfill_task_usage_hourly/main.go, the hourly usage backfill: a window function that recomputes
 * what it touches, run month by month.
 */
module HourlyBackfill {
  import opened Common
  import opened Calendar

  const HOUR: int := 3_600_000_000
  const MARGIN: int := 300_000_000

  datatype Group = Group(workspace: nat, runtime: nat, agent: nat, project: Option<nat>, provider: string, model: string)

  /** A usage row with the group its joins give it: none when its task has no runtime. */
  datatype Usage = Usage(task: nat, createdAt: int, updatedAt: Option<int>, group: Option<Group>,
                         input: int, output: int, cacheRead: int, cacheWrite: int)

  datatype Key = Key(hour: int, group: Group)

  datatype Totals = Totals(input: int, output: int, cacheRead: int, cacheWrite: int, tasks: nat, events: nat)

  datatype Queued = Queued(key: Key, enqueuedAt: int)

  datatype Rollup = Rollup(table: map<Key, Totals>, queue: set<Queued>)

  predicate InBucket(r: Usage, key: Key) {
    r.group == Some(key.group) && r.createdAt / HOUR == key.hour
  }

  /** What dates a row for the window: its last update, or its creation in rows older than that column. */
  function Stamp(r: Usage): int {
    if r.updatedAt.Some? then r.updatedAt.value else r.createdAt
  }

  function KeysOf(raw: seq<Usage>): set<Key> {
    set r | r in raw && r.group.Some? :: Key(r.createdAt / HOUR, r.group.value)
  }

  function StampedKeys(raw: seq<Usage>, from: int, to: int): set<Key> {
    set r | r in raw && r.group.Some? && from <= Stamp(r) < to :: Key(r.createdAt / HOUR, r.group.value)
  }

  function QueuedKeys(queue: set<Queued>, to: int): set<Key> {
    set q | q in queue && q.enqueuedAt < to :: q.key
  }

  function Add(t: Totals, r: Usage, tasks: nat): Totals {
    Totals(t.input + r.input, t.output + r.output, t.cacheRead + r.cacheRead, t.cacheWrite + r.cacheWrite,
           tasks, t.events + 1)
  }

  function TasksOf(raw: seq<Usage>, key: Key): set<nat> {
    set r | r in raw && InBucket(r, key) :: r.task
  }

  /** One bucket computed from all the raw rows. */
  function Recompute(raw: seq<Usage>, key: Key): Totals {
    if raw == [] then Totals(0, 0, 0, 0, 0, 0)
    else
      var last := raw[|raw| - 1];
      var rest := Recompute(raw[..|raw| - 1], key);
      if InBucket(last, key) then Add(rest, last, |TasksOf(raw, key)|) else rest
  }

  /** The table the raw rows call for. */
  function Truth(raw: seq<Usage>): map<Key, Totals> {
    map key | key in KeysOf(raw) :: Recompute(raw, key)
  }

  function Dirty(raw: seq<Usage>, queue: set<Queued>, from: int, to: int): set<Key> {
    StampedKeys(raw, from, to) + QueuedKeys(queue, to)
  }

  /** The dirty buckets replaced by what the raw rows give, or removed where they give nothing. */
  function Replace(raw: seq<Usage>, table: map<Key, Totals>, dirty: set<Key>): map<Key, Totals> {
    map key | key in table.Keys + KeysOf(raw) && (if key in dirty then key in KeysOf(raw) else key in table) ::
      if key in dirty then Recompute(raw, key) else table[key]
  }

  /** rollup_task_usage_hourly_window. */
  function Window(raw: seq<Usage>, r: Rollup, from: int, to: int): Rollup {
    if from >= to then r
    else Rollup(Replace(raw, r.table, Dirty(raw, r.queue, from, to)), set q | q in r.queue && q.enqueuedAt >= to)
  }

  type Windowing = (Rollup, int, int) -> Rollup

  function Rolling(raw: seq<Usage>): Windowing {
    (r: Rollup, from: int, to: int) => Window(raw, r, from, to)
  }

  /** The windows of n months from month k, one after another. Month k begins at starts(k): see Calendar.Start. */
  function Slices(window: Windowing, starts: int -> int, r: Rollup, k: int, n: nat): Rollup {
    if n == 0 then r else window(Slices(window, starts, r, k, n - 1), starts(k + n - 1), starts(k + n))
  }

  /** Every instant of a range of months is in exactly one of its slices, and no other instant is in any. */
  lemma SlicesTile(starts: int -> int, t: int, first: int, last: int)
    requires Increasing(starts)
    requires first <= last
    ensures starts(first) <= t < starts(last) <==> first <= Slot(starts, t) < last
    ensures forall k :: first <= k < last ==> ((starts(k) <= t < starts(k + 1)) <==> k == Slot(starts, t))
  {
    var m := Slot(starts, t);
    InOrder(starts, first, m + 1);
    InOrder(starts, m, first);
    InOrder(starts, m, last);
    InOrder(starts, last, m + 1);
    forall k | first <= k < last ensures (starts(k) <= t < starts(k + 1)) <==> k == Slot(starts, t) {
      SlotExactly(starts, t, k);
    }
  }

  /** Two replacements in a row are one of both sets. */
  lemma ReplaceTwice(raw: seq<Usage>, table: map<Key, Totals>, a: set<Key>, b: set<Key>)
    ensures Replace(raw, Replace(raw, table, a), b) == Replace(raw, table, a + b)
  {
  }

  lemma DirtyAdds(raw: seq<Usage>, queue: set<Queued>, from: int, mid: int, to: int)
    requires from <= mid <= to
    ensures var left := set q | q in queue && q.enqueuedAt >= mid;
      Dirty(raw, queue, from, mid) + Dirty(raw, left, mid, to) == Dirty(raw, queue, from, to)
  {
    var left := set q | q in queue && q.enqueuedAt >= mid;
    assert StampedKeys(raw, from, mid) + StampedKeys(raw, mid, to) == StampedKeys(raw, from, to);
    assert QueuedKeys(queue, mid) + QueuedKeys(left, to) == QueuedKeys(queue, to);
  }

  /** Adjacent windows are one window. */
  lemma WindowsJoin(raw: seq<Usage>, r: Rollup, from: int, mid: int, to: int)
    requires from <= mid <= to
    ensures Window(raw, Window(raw, r, from, mid), mid, to) == Window(raw, r, from, to)
  {
    if from < mid < to {
      DirtyAdds(raw, r.queue, from, mid, to);
      var left := set q | q in r.queue && q.enqueuedAt >= mid;
      ReplaceTwice(raw, r.table, Dirty(raw, r.queue, from, mid), Dirty(raw, left, mid, to));
      assert (set q | q in left && q.enqueuedAt >= to) == (set q | q in r.queue && q.enqueuedAt >= to);
    }
  }

  /** The month-by-month run has the effect of a single window over the whole range. */
  lemma {:induction false} SlicesAreOneWindow(starts: int -> int, raw: seq<Usage>, r: Rollup, k: int, n: nat)
    requires Increasing(starts)
    ensures Slices(Rolling(raw), starts, r, k, n) == Window(raw, r, starts(k), starts(k + n))
  {
    if n > 0 {
      SlicesAreOneWindow(starts, raw, r, k, n - 1);
      InOrder(starts, k + n - 1, k);
      InOrder(starts, k + n, k + n - 1);
      OneMore(raw, r, Slices(Rolling(raw), starts, r, k, n - 1), starts(k), starts(k + n - 1), starts(k + n));
    }
  }

  lemma OneMore(raw: seq<Usage>, r: Rollup, half: Rollup, from: int, mid: int, to: int)
    requires from <= mid <= to
    requires half == Window(raw, r, from, mid)
    ensures Window(raw, half, mid, to) == Window(raw, r, from, to)
  {
    WindowsJoin(raw, r, from, mid, to);
  }

  /** A run stopped anywhere and begun again at any month it had reached leaves what one uninterrupted run would. */
  lemma RerunIsOneRun(starts: int -> int, raw: seq<Usage>, r: Rollup, k: int, stopped: nat, again: int, left: nat, n: nat)
    requires Increasing(starts)
    requires k <= again <= k + stopped <= k + n && again + left == k + n
    ensures var window := Rolling(raw);
      Slices(window, starts, Slices(window, starts, r, k, stopped), again, left) == Slices(window, starts, r, k, n)
  {
    var half := Slices(Rolling(raw), starts, r, k, stopped);
    SlicesAreOneWindow(starts, raw, r, k, stopped);
    SlicesAreOneWindow(starts, raw, half, again, left);
    SlicesAreOneWindow(starts, raw, r, k, n);
    InOrder(starts, again, k);
    InOrder(starts, k + stopped, again);
    InOrder(starts, k + n, k + stopped);
    Overlapping(raw, r, half, Slices(Rolling(raw), starts, half, again, left), Slices(Rolling(raw), starts, r, k, n),
                starts(k), starts(again), starts(k + stopped), starts(k + n));
  }

  lemma Overlapping(raw: seq<Usage>, r: Rollup, half: Rollup, rerun: Rollup, whole: Rollup,
                    from: int, again: int, mid: int, to: int)
    requires from <= again <= mid <= to
    requires half == Window(raw, r, from, mid) && rerun == Window(raw, half, again, to) && whole == Window(raw, r, from, to)
    ensures rerun == whole
  {
    OverlapIsHarmless(raw, r, from, again, mid, to);
  }

  lemma DirtyOverlaps(raw: seq<Usage>, queue: set<Queued>, from: int, again: int, mid: int, to: int)
    requires from <= again <= mid <= to
    ensures var left := set q | q in queue && q.enqueuedAt >= mid;
      Dirty(raw, queue, from, mid) + Dirty(raw, left, again, to) == Dirty(raw, queue, from, to)
  {
    DirtyAdds(raw, queue, from, mid, to);
    assert StampedKeys(raw, again, to) == StampedKeys(raw, again, mid) + StampedKeys(raw, mid, to);
    assert StampedKeys(raw, again, mid) <= StampedKeys(raw, from, mid);
  }

  lemma OverlapIsHarmless(raw: seq<Usage>, r: Rollup, from: int, again: int, mid: int, to: int)
    requires from <= again <= mid <= to
    ensures Window(raw, Window(raw, r, from, mid), again, to) == Window(raw, r, from, to)
  {
    if from < mid && again < to {
      var left := set q | q in r.queue && q.enqueuedAt >= mid;
      var a, b := Dirty(raw, r.queue, from, mid), Dirty(raw, left, again, to);
      DirtyOverlaps(raw, r.queue, from, again, mid, to);
      ReplaceTwice(raw, r.table, a, b);
      assert (set q | q in left && q.enqueuedAt >= to) == (set q | q in r.queue && q.enqueuedAt >= to);
    }
  }

  function Earliest(raw: seq<Usage>): int
    requires raw != []
  {
    var last, rest := raw[|raw| - 1], raw[..|raw| - 1];
    if rest == [] then last.createdAt
    else if last.createdAt < Earliest(rest) then last.createdAt else Earliest(rest)
  }

  function Latest(raw: seq<Usage>): int
    requires raw != []
  {
    var last, rest := raw[|raw| - 1], raw[..|raw| - 1];
    if rest == [] then last.createdAt
    else if last.createdAt > Latest(rest) then last.createdAt else Latest(rest)
  }

  lemma {:induction false} Extremes(raw: seq<Usage>)
    requires raw != []
    ensures forall r :: r in raw ==> Earliest(raw) <= r.createdAt <= Latest(raw)
  {
    var last, rest := raw[|raw| - 1], raw[..|raw| - 1];
    assert raw == rest + [last];
    if rest != [] {
      Extremes(rest);
    }
  }

  /** The month a run starts from: that of the earliest row, or the cutoff if it is later. */
  function FirstMonth(starts: int -> int, raw: seq<Usage>, monthsBack: int, now: int): int
    requires Increasing(starts)
    requires raw != []
  {
    var earliest := Slot(starts, Earliest(raw));
    if monthsBack > 0 && Slot(starts, now) - monthsBack > earliest then Slot(starts, now) - monthsBack else earliest
  }

  /** Whether a run would leave out months that have rows, without having been told to. */
  predicate Abandons(starts: int -> int, raw: seq<Usage>, monthsBack: int, forcePartial: bool, now: int)
    requires Increasing(starts)
  {
    raw != [] && !forcePartial && FirstMonth(starts, raw, monthsBack, now) > Slot(starts, Earliest(raw))
  }

  /** How many months there are from one to another: none if they are out of order. */
  function Months(first: int, last: int): nat {
    if first < last then last - first else 0
  }

  function MonthsToDo(starts: int -> int, raw: seq<Usage>, monthsBack: int, now: int): nat
    requires Increasing(starts) && raw != []
  {
    Months(FirstMonth(starts, raw, monthsBack, now), EndMonth(starts, raw))
  }

  /** The first slices all went through, and no pause between them was interrupted. */
  ghost predicate Unhindered(slices: nat, answer: nat -> Answer, interrupted: set<nat>) {
    forall i: nat :: i < slices ==> answer(i).Fine? && (i > 0 ==> i !in interrupted)
  }

  lemma StillUnhindered(slices: nat, answer: nat -> Answer, interrupted: set<nat>)
    requires Unhindered(slices, answer, interrupted) && answer(slices).Fine? && (slices > 0 ==> slices !in interrupted)
    ensures Unhindered(slices + 1, answer, interrupted)
  {
  }

  function EndMonth(starts: int -> int, raw: seq<Usage>): int
    requires Increasing(starts)
    requires raw != []
  {
    Slot(starts, Latest(raw)) + 1
  }

  /** Rows are not updated before they are created. */
  ghost predicate UpdatedAfterCreated(raw: seq<Usage>) {
    forall r :: r in raw ==> r.createdAt <= Stamp(r)
  }

  /** Some row of the bucket was last touched within the range. */
  ghost predicate TouchedWithin(raw: seq<Usage>, key: Key, from: int, to: int) {
    exists r :: r in raw && InBucket(r, key) && from <= Stamp(r) < to
  }

  ghost predicate TouchedBefore(raw: seq<Usage>, key: Key, t: int) {
    exists r :: r in raw && InBucket(r, key) && Stamp(r) < t
  }

  /** The table has at this key what the raw rows call for: the right totals, or nothing. */
  ghost predicate Right(raw: seq<Usage>, table: map<Key, Totals>, key: Key) {
    if key in KeysOf(raw) then key in table && table[key] == Recompute(raw, key) else key !in table
  }

  /** Every bucket that is called for or present is touched in the range, queued before its end, or right already. */
  ghost predicate Covered(raw: seq<Usage>, r: Rollup, from: int, to: int) {
    forall key :: key in KeysOf(raw) + r.table.Keys ==>
      TouchedWithin(raw, key, from, to) || key in QueuedKeys(r.queue, to) || Right(raw, r.table, key)
  }

  lemma StampedExactly(raw: seq<Usage>, key: Key, from: int, to: int)
    ensures key in StampedKeys(raw, from, to) <==> TouchedWithin(raw, key, from, to)
  {
    if key in StampedKeys(raw, from, to) {
      var r :| r in raw && r.group.Some? && from <= Stamp(r) < to && key == Key(r.createdAt / HOUR, r.group.value);
      assert InBucket(r, key);
    }
  }

  lemma TruthExactly(raw: seq<Usage>, table: map<Key, Totals>)
    ensures table == Truth(raw) <==> forall key :: key in KeysOf(raw) + table.Keys ==> Right(raw, table, key)
  {
    if forall key :: key in KeysOf(raw) + table.Keys ==> Right(raw, table, key) {
      assert table.Keys == Truth(raw).Keys by {
        assert forall key :: key in KeysOf(raw) ==> Right(raw, table, key);
        assert forall key :: key in table ==> Right(raw, table, key);
      }
      assert forall key :: key in table ==> Right(raw, table, key);
    }
  }

  /** Whatever table and queue it starts from, a window leaves what the raw rows call for exactly if it covers all that
      was not right already. */
  lemma WindowExactly(raw: seq<Usage>, r: Rollup, from: int, to: int)
    requires from < to
    ensures Window(raw, r, from, to).table == Truth(raw) <==> Covered(raw, r, from, to)
  {
    var dirty := Dirty(raw, r.queue, from, to);
    var after := Replace(raw, r.table, dirty);
    forall key ensures Right(raw, after, key) <==> key in dirty || Right(raw, r.table, key) {
    }
    forall key ensures key in dirty <==> TouchedWithin(raw, key, from, to) || key in QueuedKeys(r.queue, to) {
      StampedExactly(raw, key, from, to);
    }
    TruthExactly(raw, after);
    assert after.Keys <= KeysOf(raw) + r.table.Keys;
    assert forall key :: key !in KeysOf(raw) + after.Keys ==> Right(raw, after, key);
  }

  /** A run over n months, from any table and queue, also one that an earlier run left behind over rows that have
      changed since. */
  lemma SlicesExactly(starts: int -> int, raw: seq<Usage>, r: Rollup, k: int, n: nat)
    requires Increasing(starts) && n > 0
    ensures Slices(Rolling(raw), starts, r, k, n).table == Truth(raw) <==>
      Covered(raw, r, starts(k), starts(k + n))
  {
    SlicesAreOneWindow(starts, raw, r, k, n);
    InOrder(starts, k, k + n);
    WindowExactly(raw, r, starts(k), starts(k + n));
  }

  /** Every bucket has a row that was not updated in a month after the last one any row was created in, or is queued by
      then, or is right already. */
  ghost predicate CoveredBefore(raw: seq<Usage>, r: Rollup, to: int) {
    forall key :: key in KeysOf(raw) + r.table.Keys ==>
      TouchedBefore(raw, key, to) || key in QueuedKeys(r.queue, to) || Right(raw, r.table, key)
  }

  /** For a run over all the months, that the range begins early enough goes without saying. */
  lemma FullRunExactly(starts: int -> int, raw: seq<Usage>, r: Rollup, n: nat)
    requires Increasing(starts)
    requires raw != [] && UpdatedAfterCreated(raw)
    requires FirstMonth(starts, raw, 0, 0) + n == EndMonth(starts, raw)
    ensures Slices(Rolling(raw), starts, r, FirstMonth(starts, raw, 0, 0), n).table == Truth(raw) <==>
      CoveredBefore(raw, r, starts(EndMonth(starts, raw)))
  {
    var first, end := FirstMonth(starts, raw, 0, 0), EndMonth(starts, raw);
    RangeHoldsCreations(starts, raw);
    FirstBeforeEnd(starts, raw, 0);
    RangeFromStart(starts, raw, r, first, n, end);
  }

  lemma RangeFromStart(starts: int -> int, raw: seq<Usage>, r: Rollup, first: int, n: nat, end: int)
    requires Increasing(starts) && n > 0 && end == first + n
    requires UpdatedAfterCreated(raw) && forall u :: u in raw ==> starts(first) <= u.createdAt
    ensures Slices(Rolling(raw), starts, r, first, n).table == Truth(raw) <==> CoveredBefore(raw, r, starts(end))
  {
    SlicesExactly(starts, raw, r, first, n);
    CoveredFromStart(raw, r, starts(first), starts(end));
  }

  lemma CoveredFromStart(raw: seq<Usage>, r: Rollup, from: int, to: int)
    requires UpdatedAfterCreated(raw) && forall u :: u in raw ==> from <= u.createdAt
    ensures Covered(raw, r, from, to) <==> CoveredBefore(raw, r, to)
  {
    forall key ensures TouchedWithin(raw, key, from, to) <==> TouchedBefore(raw, key, to) {
      if u :| u in raw && InBucket(u, key) && Stamp(u) < to {
        assert from <= u.createdAt <= Stamp(u);
      }
    }
  }

  lemma RangeHoldsCreations(starts: int -> int, raw: seq<Usage>)
    requires Increasing(starts)
    requires raw != []
    ensures forall r :: r in raw ==> starts(FirstMonth(starts, raw, 0, 0)) <= r.createdAt < starts(EndMonth(starts, raw))
    ensures starts(FirstMonth(starts, raw, 0, 0)) < starts(EndMonth(starts, raw))
  {
    Extremes(raw);
    SlotExactly(starts, Earliest(raw), FirstMonth(starts, raw, 0, 0));
    SlotExactly(starts, Latest(raw), EndMonth(starts, raw) - 1);
  }

  /** One row created in one month and updated in the next is left out of the table. */
  lemma LateUpdateMissed(starts: int -> int, k: int, row: Usage, g: Group)
    requires Increasing(starts)
    requires row.group == Some(g) && row.createdAt == starts(k) && row.updatedAt == Some(starts(k + 1))
    ensures FirstMonth(starts, [row], 0, 0) + 1 == EndMonth(starts, [row])
    ensures Slices(Rolling([row]), starts, Rollup(map[], {}), FirstMonth(starts, [row], 0, 0), 1).table == map[]
    ensures Truth([row]) != map[]
  {
    InOrder(starts, k, k + 1);
    SlotExactly(starts, starts(k), k);
    assert row in [row];
    assert Earliest([row]) == starts(k) && Latest([row]) == starts(k);
    SlicesAreOneWindow(starts, [row], Rollup(map[], {}), k, 1);
    assert StampedKeys([row], starts(k), starts(k + 1)) == {};
    assert QueuedKeys({}, starts(k + 1)) == {};
    assert Key(row.createdAt / HOUR, g) in KeysOf([row]);
  }

  /** Rows queued as dirty are not forgotten: their buckets come right too, and a bucket with no rows left goes. */
  lemma QueueIsHonoured(starts: int -> int, raw: seq<Usage>, r: Rollup, k: int, n: nat, q: Queued)
    requires Increasing(starts)
    requires n > 0 && q in r.queue && q.enqueuedAt < starts(k + n)
    ensures var after := Slices(Rolling(raw), starts, r, k, n);
      q !in after.queue && (q.key in after.table <==> q.key in KeysOf(raw)) &&
      (q.key in after.table ==> after.table[q.key] == Recompute(raw, q.key))
  {
    SlicesAreOneWindow(starts, raw, r, k, n);
    InOrder(starts, k, k + n);
    assert q.key in QueuedKeys(r.queue, starts(k + n));
  }

  datatype Outcome = Done | Refused | Failed | Cancelled

  /** What the command hears of a statement: that it worked, or an error although it may have taken effect. */
  datatype Answer = Fine | Broken(applied: bool)

  /** The slices that are in the table: those confirmed, and one that failed after it was committed. */
  function InTable(outcome: Outcome, slices: nat, all: nat, answer: nat -> Answer): nat {
    if outcome == Failed && slices < all && answer(slices) == Broken(true) then slices + 1 else slices
  }

  /** The usage table with the rollup table, the dirty queue and the watermark derived from it. */
  class Warehouse {
    var raw: seq<Usage>
    var rollup: Rollup
    var watermark: Option<int>

    /** stampWatermark: the cron rollup resumes five minutes before now. */
    method StampWatermark(now: int, stamp: Answer) returns (outcome: Outcome)
      modifies this`watermark
      ensures outcome == if stamp.Fine? then Done else Failed
      ensures watermark == if stamp == Broken(false) || old(watermark).None? then old(watermark) else Some(now - MARGIN)
    {
      if watermark.Some? && stamp != Broken(false) {
        watermark := Some(now - MARGIN);
      }
      outcome := if stamp.Fine? then Done else Failed;
    }

    /** What a run leaves behind when it did n slices from month k. */
    ghost predicate Took(starts: int -> int, before: Rollup, k: int, n: nat)
      reads this
    {
      rollup == Slices(Rolling(raw), starts, before, k, n)
    }

    /** The start of the month so many months back. */
    method Cutoff(starts: int -> int, now: int, monthsBack: int, ghost first: int) returns (cutoff: int)
      requires Increasing(starts)
      ensures cutoff == starts(Slot(starts, now) - monthsBack)
      ensures cutoff > starts(first) <==> Slot(starts, now) - monthsBack > first
    {
      AddMonthsToFloor(starts, Slot(starts, now), -monthsBack);
      InOrder(starts, first, Slot(starts, now) - monthsBack);
      cutoff := AddMonths(starts, Floor(starts, now), -monthsBack);
    }

    /** Where the slices begin and end, or that the rows left out have to be given up explicitly. */
    method Range(starts: int -> int, monthsBack: int, forcePartial: bool, now: int)
      returns (ok: bool, from: int, end: int)
      requires Increasing(starts) && raw != []
      ensures ok == !Abandons(starts, raw, monthsBack, forcePartial, now)
      ensures ok ==> from == starts(FirstMonth(starts, raw, monthsBack, now)) && end == starts(EndMonth(starts, raw))
    {
      var earliest, latest := Earliest(raw), Latest(raw);
      from := Floor(starts, earliest);
      AddMonthsToFloor(starts, Slot(starts, latest), 1);
      assert EndMonth(starts, raw) == Slot(starts, latest) + 1;
      end := AddMonths(starts, Floor(starts, latest), 1);
      ghost var first := Slot(starts, earliest);
      if monthsBack > 0 {
        var cutoff := Cutoff(starts, now, monthsBack, first);
        if cutoff > from {
          if !forcePartial {
            return false, from, end;
          }
          from := cutoff;
        }
      }
      ok := true;
    }

    /** The whole command; `slices` counts the slices confirmed. How each slice and the stamp answer, and which pauses
        are interrupted, is given. */
    method Run(starts: int -> int, dryRun: bool, monthsBack: int, forcePartial: bool, paused: bool,
               now: int, later: int, answer: nat -> Answer, interrupted: set<nat>, stamp: Answer)
      returns (outcome: Outcome, slices: nat)
      requires Increasing(starts)
      modifies this`rollup, this`watermark
      ensures (outcome == Refused) == Abandons(starts, raw, monthsBack, forcePartial, now)
      ensures dryRun || outcome == Refused || raw == [] ==> rollup == old(rollup)
      ensures raw != [] && !dryRun && outcome != Refused ==>
        var first, all := FirstMonth(starts, raw, monthsBack, now), MonthsToDo(starts, raw, monthsBack, now);
        Took(starts, old(rollup), first, InTable(outcome, slices, all, answer))
      ensures raw != [] && outcome == Done ==> slices == MonthsToDo(starts, raw, monthsBack, now)
      ensures raw != [] ==> slices <= MonthsToDo(starts, raw, monthsBack, now)
      ensures watermark ==
        if !dryRun && outcome != Refused && (raw == [] || slices == MonthsToDo(starts, raw, monthsBack, now)) &&
           stamp != Broken(false) && old(watermark).Some?
        then Some(later - MARGIN) else old(watermark)
      ensures dryRun && outcome != Refused ==> outcome == Done
      ensures raw == [] ==> outcome == if !dryRun && stamp.Broken? then Failed else Done
      ensures raw != [] && !dryRun && outcome != Refused ==>
        Unhindered(slices, answer, if paused then interrupted else {})
      ensures outcome == Done && !dryRun ==> stamp.Fine?
      ensures outcome == Failed ==>
        if raw != [] && slices < MonthsToDo(starts, raw, monthsBack, now) then answer(slices).Broken? else stamp.Broken?
      ensures outcome == Cancelled ==> raw != [] && slices < MonthsToDo(starts, raw, monthsBack, now)
      ensures outcome == Cancelled ==> paused && slices in interrupted
    {
      slices := 0;
      if raw == [] {
        if dryRun {
          return Done, 0;
        }
        outcome := StampWatermark(later, stamp);
        return;
      }
      var ok, from, end := Range(starts, monthsBack, forcePartial, now);
      if !ok {
        return Refused, 0;
      }
      outcome, slices := RunSlices(Rolling(raw), starts, dryRun, paused, from, end, FirstMonth(starts, raw, monthsBack, now),
                                   EndMonth(starts, raw), answer, interrupted);
      if dryRun || outcome != Done {
        return;
      }
      outcome := StampWatermark(later, stamp);
    }

    /** AddDate(0, 1, 0) on the start of a month. */
    method NextMonth(starts: int -> int, cursor: int, ghost k: int, ghost last: int) returns (next: int)
      requires Increasing(starts) && cursor == starts(k)
      ensures next == starts(k + 1) && (next < starts(last) <==> k + 1 < last)
    {
      AddMonthsToFloor(starts, k, 1);
      next := AddMonths(starts, cursor, 1);
      InOrder(starts, k + 1, last);
    }

    /** One slice, in a transaction of its own, on top of those before it. */
    method RollUp(window: Windowing, starts: int -> int, cursor: int, next: int, a: Answer, ghost before: Rollup,
                  ghost first: int, ghost slices: nat)
      returns (confirmed: bool)
      requires cursor == starts(first + slices) && next == starts(first + slices + 1)
      requires rollup == Slices(window, starts, before, first, slices)
      modifies this`rollup
      ensures confirmed == a.Fine?
      ensures rollup == Slices(window, starts, before, first, if a == Broken(false) then slices else slices + 1)
    {
      if a != Broken(false) {
        rollup := window(rollup, cursor, next);
      }
      confirmed := a.Fine?;
    }

    /** The loop over months, from the start of one month to the start of another. */
    method RunSlices(window: Windowing, starts: int -> int, dryRun: bool, paused: bool, from: int, end: int,
                     ghost first: int, ghost last: int, answer: nat -> Answer, interrupted: set<nat>)
      returns (outcome: Outcome, slices: nat)
      requires Increasing(starts) && from == starts(first) && end == starts(last)
      modifies this`rollup
      ensures rollup == if dryRun then old(rollup)
        else Slices(window, starts, old(rollup), first, InTable(outcome, slices, Months(first, last), answer))
      ensures outcome != Refused && (dryRun ==> outcome == Done)
      ensures if outcome == Done then slices == Months(first, last) else slices < Months(first, last)
      ensures outcome == Cancelled ==> paused && slices in interrupted
      ensures outcome == Failed ==> answer(slices).Broken?
      ensures !dryRun ==> Unhindered(slices, answer, if paused then interrupted else {})
    {
      var cursor := from;
      slices := 0;
      ghost var total, init := Months(first, last), rollup;
      ghost var stops := if paused then interrupted else {};
      InOrder(starts, first, last);
      while cursor < end
        invariant cursor == starts(first + slices) && (cursor < end <==> slices < total)
        invariant rollup == if dryRun then init else Slices(window, starts, init, first, slices)
        invariant slices <= total
        invariant !dryRun ==> Unhindered(slices, answer, stops)
        invariant !dryRun && 0 < slices && cursor < end ==> slices !in stops
        decreases total - slices
      {
        var next := NextMonth(starts, cursor, first + slices, last);
        if !dryRun {
          var confirmed := RollUp(window, starts, cursor, next, answer(slices), init, first, slices);
          if !confirmed {
            return Failed, slices;
          }
          StillUnhindered(slices, answer, stops);
        }
        cursor := next;
        slices := slices + 1;
        if !dryRun && paused && cursor < end && slices in interrupted {
          return Cancelled, slices;
        }
      }
      outcome := Done;
    }

    /** A run that reports success has left exactly what the raw rows call for if and only if its range covers all that
        was not right before. */
    method Backfill(starts: int -> int, monthsBack: int, forcePartial: bool, paused: bool, now: int, later: int,
                    answer: nat -> Answer, interrupted: set<nat>, stamp: Answer)
      returns (outcome: Outcome)
      requires Increasing(starts)
      modifies this`rollup, this`watermark
      ensures outcome == Done && raw != [] && FirstMonth(starts, raw, monthsBack, now) < EndMonth(starts, raw) ==>
        (rollup.table == Truth(raw) <==>
         Covered(raw, old(rollup), starts(FirstMonth(starts, raw, monthsBack, now)), starts(EndMonth(starts, raw))))
      ensures raw == [] ==> rollup == old(rollup)
      ensures watermark != old(watermark) ==> outcome == Done || (outcome == Failed && stamp == Broken(true))
    {
      var slices;
      outcome, slices := Run(starts, false, monthsBack, forcePartial, paused, now, later, answer, interrupted, stamp);
      if outcome == Done && raw != [] && slices > 0 {
        DoneIsCovered(starts, raw, old(rollup), rollup, monthsBack, now, slices);
      }
    }
  }

  lemma DoneIsCovered(starts: int -> int, raw: seq<Usage>, before: Rollup, after: Rollup, monthsBack: int, now: int, n: nat)
    requires Increasing(starts) && raw != [] && n > 0 && n == MonthsToDo(starts, raw, monthsBack, now)
    requires after == Slices(Rolling(raw), starts, before, FirstMonth(starts, raw, monthsBack, now), n)
    ensures after.table == Truth(raw) <==>
      Covered(raw, before, starts(FirstMonth(starts, raw, monthsBack, now)), starts(EndMonth(starts, raw)))
  {
    MonthsCovered(starts, raw, before, after, FirstMonth(starts, raw, monthsBack, now), EndMonth(starts, raw), n);
  }

  lemma MonthsCovered(starts: int -> int, raw: seq<Usage>, before: Rollup, after: Rollup, first: int, end: int, n: nat)
    requires Increasing(starts) && n > 0 && n == Months(first, end)
    requires after == Slices(Rolling(raw), starts, before, first, n)
    ensures after.table == Truth(raw) <==> Covered(raw, before, starts(first), starts(end))
  {
    SlicesExactly(starts, raw, before, first, n);
  }

  lemma FirstBeforeEnd(starts: int -> int, raw: seq<Usage>, now: int)
    requires Increasing(starts) && raw != []
    ensures FirstMonth(starts, raw, 0, now) == FirstMonth(starts, raw, 0, 0) < EndMonth(starts, raw)
  {
    RangeHoldsCreations(starts, raw);
    InOrder(starts, FirstMonth(starts, raw, 0, 0), EndMonth(starts, raw));
  }

  // ---------------------------------------------------------------------------------------------
  // On the calendar
  // ---------------------------------------------------------------------------------------------

  /** Calendar months tile time. */
  lemma CalendarMonthsTile(t: int, first: int, last: int)
    requires first <= last
    ensures Increasing(Start)
    ensures Start(first) <= t < Start(last) <==> first <= Slot(Start, t) < last
    ensures forall k :: first <= k < last ==> ((Start(k) <= t < Start(k + 1)) <==> k == Slot(Start, t))
  {
    StartIncreases();
    SlicesTile(Start, t, first, last);
  }

  /** A full run over calendar months. */
  lemma CalendarRunExactly(raw: seq<Usage>, r: Rollup, n: nat)
    requires raw != [] && UpdatedAfterCreated(raw)
    ensures Increasing(Start)
    ensures FirstMonth(Start, raw, 0, 0) + n == EndMonth(Start, raw) ==>
      (Slices(Rolling(raw), Start, r, FirstMonth(Start, raw, 0, 0), n).table == Truth(raw) <==>
       CoveredBefore(raw, r, Start(EndMonth(Start, raw))))
  {
    StartIncreases();
    if FirstMonth(Start, raw, 0, 0) + n == EndMonth(Start, raw) {
      FullRunExactly(Start, raw, r, n);
    }
  }
}
