/**
 * core/cmd/backfill_codex_usage_cache/main.go: a batched repair of usage rows whose own update takes them out of
 * the set still to be repaired.  Times are instants of the database clock.
 */
module CodexBackfill {
  import opened Common

  datatype Row = Row(
    provider: string,
    input: int,
    cacheRead: int,
    updatedAt: Option<int>,
    createdAt: int,
    workspace: Option<string>)      // None: no task or agent joins

  type Table = seq<Row>             // a row keeps its position

  /** The --cutoff and --workspace-id flags. */
  datatype Scope = Scope(cutoff: int, workspace: string)

  function Stamp(r: Row): int {
    if r.updatedAt.Some? then r.updatedAt.value else r.createdAt
  }

  predicate Eligible(s: Scope, r: Row) {
    && r.provider == "codex" && r.cacheRead > 0 && r.input > 0
    && Stamp(r) < s.cutoff
    && r.workspace.Some? && (s.workspace == "" || r.workspace.value == s.workspace)
  }

  /** GREATEST(input_tokens - cache_read_tokens, 0). */
  function Clamped(r: Row): int {
    if r.input - r.cacheRead > 0 then r.input - r.cacheRead else 0
  }

  function Overcount(r: Row): int {
    r.input - Clamped(r)
  }

  function CorrectedInputTokens(inputTokens: int, cacheReadTokens: int): (r: int)
    ensures r >= 0
    ensures r == if cacheReadTokens <= inputTokens then inputTokens - cacheReadTokens else 0
  {
    var corrected := inputTokens - cacheReadTokens;
    if corrected < 0 then 0 else corrected
  }

  /** The helper in Go and the clamp in SQL agree; what they take away is the cached part, or all there is if that is less. */
  lemma GoAgreesWithSql(r: Row)
    ensures CorrectedInputTokens(r.input, r.cacheRead) == Clamped(r)
    ensures r.input >= 0 ==> Overcount(r) == if r.cacheRead < r.input then r.cacheRead else r.input
  {
  }

  function Corrected(r: Row, now: int): Row {
    r.(input := Clamped(r), updatedAt := Some(now))
  }

  // ---------------------------------------------------------------------------------------------
  // One batch
  // ---------------------------------------------------------------------------------------------

  /** The rows `chosen` are corrected, all the others left alone. */
  function AfterBatch(t: Table, chosen: set<nat>, now: int): (r: Table)
    ensures |r| == |t|
  {
    seq(|t|, i requires 0 <= i < |t| => if i in chosen then Corrected(t[i], now) else t[i])
  }

  function Removed(t: Table, n: nat, chosen: set<nat>): int
    requires n <= |t|
  {
    if n == 0 then 0 else Removed(t, n - 1, chosen) + if n - 1 in chosen then Overcount(t[n - 1]) else 0
  }

  function InputOf(t: Table, n: nat): int
    requires n <= |t|
  {
    if n == 0 then 0 else InputOf(t, n - 1) + t[n - 1].input
  }

  /** What the dry run says of the first n rows: rows, input before and after, overcount. */
  datatype Totals = Totals(rows: int, inputBefore: int, inputAfter: int, overcount: int, clampedRows: int)

  function Plus(a: Totals, b: Totals): Totals {
    Totals(a.rows + b.rows, a.inputBefore + b.inputBefore, a.inputAfter + b.inputAfter,
           a.overcount + b.overcount, a.clampedRows + b.clampedRows)
  }

  function RowTotals(r: Row): Totals {
    Totals(1, r.input, Clamped(r), Overcount(r), if r.input < r.cacheRead then 1 else 0)
  }

  function DryRun(s: Scope, t: Table, n: nat): Totals
    requires n <= |t|
  {
    if n == 0 then Totals(0, 0, 0, 0, 0)
    else if Eligible(s, t[n - 1]) then Plus(DryRun(s, t, n - 1), RowTotals(t[n - 1]))
    else DryRun(s, t, n - 1)
  }

  function EligibleRows(s: Scope, t: Table): set<nat> {
    set i: nat | i < |t| && Eligible(s, t[i])
  }

  /** The oldest eligible row among the first n that is not in `taken`; ties go to the smaller position. */
  function Oldest(s: Scope, t: Table, taken: set<nat>, n: nat): (r: Option<nat>)
    requires n <= |t|
    ensures r.Some? ==> r.value < n && Eligible(s, t[r.value]) && r.value !in taken
  {
    if n == 0 then None
    else
      var before := Oldest(s, t, taken, n - 1);
      if !Eligible(s, t[n - 1]) || n - 1 in taken then before
      else if before.Some? && Stamp(t[before.value]) <= Stamp(t[n - 1]) then before
      else Some(n - 1)
  }

  /** In the order by instant, and by position for equal instants, i does not come after j. */
  predicate NotAfter(t: Table, i: nat, j: nat)
    requires i < |t| && j < |t|
  {
    Stamp(t[i]) < Stamp(t[j]) || (Stamp(t[i]) == Stamp(t[j]) && i <= j)
  }

  lemma {:induction false} OldestFacts(s: Scope, t: Table, taken: set<nat>, n: nat)
    requires n <= |t|
    ensures var r := Oldest(s, t, taken, n);
      && (r.Some? ==> forall j :: 0 <= j < n && Eligible(s, t[j]) && j !in taken ==> NotAfter(t, r.value, j))
      && (r.None? ==> forall j :: 0 <= j < n && Eligible(s, t[j]) ==> j in taken)
  {
    if n > 0 {
      OldestFacts(s, t, taken, n - 1);
    }
  }

  /** SELECT ... ORDER BY stamp, id LIMIT size. */
  function Batch(s: Scope, t: Table, size: nat): set<nat> {
    if size == 0 then {}
    else
      var before := Batch(s, t, size - 1);
      var next := Oldest(s, t, before, |t|);
      if next.None? then before else before + {next.value}
  }

  lemma {:induction false} BatchEligible(s: Scope, t: Table, size: nat)
    ensures forall i :: i in Batch(s, t, size) ==> i < |t| && Eligible(s, t[i])
  {
    if size > 0 {
      BatchEligible(s, t, size - 1);
    }
  }

  lemma {:induction false} BatchSize(s: Scope, t: Table, size: nat)
    ensures |Batch(s, t, size)| <= size
    ensures |Batch(s, t, size)| < size ==> Oldest(s, t, Batch(s, t, size), |t|).None?
  {
    if size > 0 {
      BatchSize(s, t, size - 1);
    }
  }

  ghost predicate OldestFirst(s: Scope, t: Table, chosen: set<nat>) {
    forall i: nat, j: nat :: i < |t| && i in chosen && j < |t| && Eligible(s, t[j]) && j !in chosen ==> NotAfter(t, i, j)
  }

  lemma {:induction false} BatchOldest(s: Scope, t: Table, size: nat)
    ensures OldestFirst(s, t, Batch(s, t, size))
  {
    if size > 0 {
      BatchOldest(s, t, size - 1);
      OldestFacts(s, t, Batch(s, t, size - 1), |t|);
    }
  }

  /** `size` eligible rows or all there are, none left out coming before one taken. */
  lemma BatchIsOldestFirst(s: Scope, t: Table, size: nat)
    ensures Batch(s, t, size) <= EligibleRows(s, t)
    ensures |Batch(s, t, size)| <= size
    ensures |Batch(s, t, size)| < size ==> Batch(s, t, size) == EligibleRows(s, t)
    ensures OldestFirst(s, t, Batch(s, t, size))
  {
    BatchEligible(s, t, size);
    BatchSize(s, t, size);
    BatchOldest(s, t, size);
    OldestFacts(s, t, Batch(s, t, size), |t|);
  }

  /**
   * Each row is as it was, or was eligible and has been corrected once, at an instant not before the cutoff.
   */
  ghost predicate Progress(s: Scope, init: Table, t: Table) {
    && |t| == |init|
    && forall i :: 0 <= i < |t| ==> t[i] == init[i] || CorrectedOnce(s, init[i], t[i])
  }

  ghost predicate CorrectedOnce(s: Scope, before: Row, after: Row) {
    Eligible(s, before) && exists now :: s.cutoff <= now && after == Corrected(before, now)
  }

  /** One pass of clamped subtraction over the initially eligible rows, update times aside. */
  ghost predicate OnePass(s: Scope, init: Table, t: Table) {
    && |t| == |init|
    && forall i :: 0 <= i < |t| ==> if Eligible(s, init[i]) then CorrectedOnce(s, init[i], t[i]) else t[i] == init[i]
  }

  /** With the clock at or past the cutoff a correction ends a row's eligibility; otherwise only clamping to zero does. */
  lemma CorrectionEndsEligibility(s: Scope, r: Row, now: int)
    requires Eligible(s, r)
    ensures !Eligible(s, Corrected(r, now)) <==> now >= s.cutoff || r.input <= r.cacheRead
  {
  }

  lemma BatchKeepsProgress(s: Scope, init: Table, t: Table, chosen: set<nat>, now: int)
    requires Progress(s, init, t) && chosen <= EligibleRows(s, t) && now >= s.cutoff
    ensures Progress(s, init, AfterBatch(t, chosen, now))
    ensures EligibleRows(s, AfterBatch(t, chosen, now)) == EligibleRows(s, t) - chosen
  {
    var r := AfterBatch(t, chosen, now);
    forall i | 0 <= i < |t| ensures r[i] == init[i] || CorrectedOnce(s, init[i], r[i]) {
      if i in chosen {
        StillInitial(s, init[i], t[i]);
      }
    }
    forall i: nat | i < |t| ensures Eligible(s, r[i]) <==> Eligible(s, t[i]) && i !in chosen {
      if i in chosen { CorrectionEndsEligibility(s, t[i], now); }
    }
  }

  lemma CorrectedIsDone(s: Scope, before: Row, after: Row)
    requires CorrectedOnce(s, before, after)
    ensures !Eligible(s, after)
  {
    var now :| s.cutoff <= now && after == Corrected(before, now);
    CorrectionEndsEligibility(s, before, now);
  }

  /** A row still eligible has not been touched: no row is corrected twice. */
  lemma StillInitial(s: Scope, before: Row, after: Row)
    requires after == before || CorrectedOnce(s, before, after)
    requires Eligible(s, after)
    ensures after == before
  {
    if CorrectedOnce(s, before, after) {
      CorrectedIsDone(s, before, after);
    }
  }

  lemma {:induction false} BatchRemoves(t: Table, n: nat, chosen: set<nat>, now: int)
    requires n <= |t|
    ensures InputOf(AfterBatch(t, chosen, now), n) + Removed(t, n, chosen) == InputOf(t, n)
  {
    if n > 0 {
      BatchRemoves(t, n - 1, chosen, now);
    }
  }

  /** When nothing is eligible any more the whole pass has been made, and what was removed is the dry-run overcount. */
  lemma Completion(s: Scope, init: Table, t: Table)
    requires Progress(s, init, t) && EligibleRows(s, t) == {}
    ensures OnePass(s, init, t)
    ensures InputOf(init, |init|) - InputOf(t, |t|) == DryRun(s, init, |init|).overcount
  {
    forall i | 0 <= i < |t|
      ensures if Eligible(s, init[i]) then CorrectedOnce(s, init[i], t[i]) else t[i] == init[i]
    {
      assert i !in EligibleRows(s, t);
    }
    OnePassRemoves(s, init, t, |t|);
  }

  lemma {:induction false} OnePassRemoves(s: Scope, init: Table, t: Table, n: nat)
    requires OnePass(s, init, t) && n <= |t|
    ensures InputOf(init, n) - InputOf(t, n) == DryRun(s, init, n).overcount
  {
    if n > 0 {
      OnePassRemoves(s, init, t, n - 1);
    }
  }

  /** input_before = input_after + overcount. */
  lemma {:induction false} DryRunBalances(s: Scope, t: Table, n: nat)
    requires n <= |t|
    ensures DryRun(s, t, n).inputBefore == DryRun(s, t, n).inputAfter + DryRun(s, t, n).overcount
    ensures DryRun(s, t, n).overcount >= DryRun(s, t, n).rows >= DryRun(s, t, n).clampedRows >= 0
    ensures DryRun(s, t, n).rows == 0 <==> forall i :: 0 <= i < n ==> !Eligible(s, t[i])
  {
    if n > 0 {
      DryRunBalances(s, t, n - 1);
    }
  }

  // ---------------------------------------------------------------------------------------------
  // Any number of batches, of any sizes, whoever runs them
  // ---------------------------------------------------------------------------------------------

  /** One statement: its LIMIT and the database clock it ran at. */
  datatype Round = Round(size: nat, now: int)

  function AfterRounds(s: Scope, t: Table, rounds: seq<Round>): (r: Table)
    ensures |r| == |t|
  {
    if rounds == [] then t
    else
      var u := AfterRounds(s, t, rounds[..|rounds| - 1]);
      var last := rounds[|rounds| - 1];
      AfterBatch(u, Batch(s, u, last.size), last.now)
  }

  function RemovedByRounds(s: Scope, t: Table, rounds: seq<Round>): int {
    if rounds == [] then 0
    else
      var front := rounds[..|rounds| - 1];
      var u := AfterRounds(s, t, front);
      RemovedByRounds(s, t, front) + Removed(u, |u|, Batch(s, u, rounds[|rounds| - 1].size))
  }

  function RowsByRounds(s: Scope, t: Table, rounds: seq<Round>): nat {
    if rounds == [] then 0
    else
      var front := rounds[..|rounds| - 1];
      RowsByRounds(s, t, front) + |Batch(s, AfterRounds(s, t, front), rounds[|rounds| - 1].size)|
  }

  ghost predicate ClockPastCutoff(s: Scope, rounds: seq<Round>) {
    forall k :: 0 <= k < |rounds| ==> rounds[k].now >= s.cutoff
  }

  lemma {:induction false} RoundsProgress(s: Scope, t: Table, rounds: seq<Round>)
    requires ClockPastCutoff(s, rounds)
    ensures Progress(s, t, AfterRounds(s, t, rounds))
  {
    if rounds != [] {
      var front := rounds[..|rounds| - 1];
      RoundsProgress(s, t, front);
      var u := AfterRounds(s, t, front);
      BatchIsOldestFirst(s, u, rounds[|rounds| - 1].size);
      BatchKeepsProgress(s, t, u, Batch(s, u, rounds[|rounds| - 1].size), rounds[|rounds| - 1].now);
    }
  }

  /** Each row leaves the eligible set with the round that corrects it. */
  lemma {:induction false} RoundsCountRows(s: Scope, t: Table, rounds: seq<Round>)
    requires ClockPastCutoff(s, rounds)
    ensures RowsByRounds(s, t, rounds) + |EligibleRows(s, AfterRounds(s, t, rounds))| == |EligibleRows(s, t)|
  {
    if rounds != [] {
      var front, last := rounds[..|rounds| - 1], rounds[|rounds| - 1];
      RoundsCountRows(s, t, front);
      RoundsProgress(s, t, front);
      var u := AfterRounds(s, t, front);
      BatchIsOldestFirst(s, u, last.size);
      BatchKeepsProgress(s, t, u, Batch(s, u, last.size), last.now);
    }
  }

  /** Tokens are conserved by every round, at any clock. */
  lemma {:induction false} RoundsConserve(s: Scope, t: Table, rounds: seq<Round>)
    ensures var r := AfterRounds(s, t, rounds);
      InputOf(r, |r|) + RemovedByRounds(s, t, rounds) == InputOf(t, |t|)
  {
    if rounds != [] {
      var front, last := rounds[..|rounds| - 1], rounds[|rounds| - 1];
      RoundsConserve(s, t, front);
      var u := AfterRounds(s, t, front);
      BatchRemoves(u, |u|, Batch(s, u, last.size), last.now);
    }
  }

  /**
   * However the work is cut into batches and however often it is interrupted and rerun: once nothing is eligible
   * the table is the one a single pass would have left, and the tokens removed are the dry run's overcount.
   */
  lemma AnyBatchingIsOnePass(s: Scope, t: Table, rounds: seq<Round>)
    requires ClockPastCutoff(s, rounds) && EligibleRows(s, AfterRounds(s, t, rounds)) == {}
    ensures OnePass(s, t, AfterRounds(s, t, rounds))
    ensures RemovedByRounds(s, t, rounds) == DryRun(s, t, |t|).overcount
    ensures RowsByRounds(s, t, rounds) == |EligibleRows(s, t)|
    ensures DryRun(s, t, |t|).inputBefore == DryRun(s, t, |t|).inputAfter + DryRun(s, t, |t|).overcount
  {
    RoundsProgress(s, t, rounds);
    RoundsConserve(s, t, rounds);
    RoundsCountRows(s, t, rounds);
    Completion(s, t, AfterRounds(s, t, rounds));
    DryRunBalances(s, t, |t|);
  }

  /** Round k corrected row i while the database clock was still before the cutoff. */
  ghost predicate HitEarly(s: Scope, t: Table, rounds: seq<Round>, i: nat, k: nat) {
    k < |rounds| && rounds[k].now < s.cutoff && i in Batch(s, AfterRounds(s, t, rounds[..k]), rounds[k].size)
  }

  ghost predicate EverHitEarly(s: Scope, t: Table, rounds: seq<Round>, i: nat) {
    exists k :: HitEarly(s, t, rounds, i, k)
  }

  lemma EarlySnoc(s: Scope, t: Table, rounds: seq<Round>, i: nat)
    requires rounds != []
    ensures var front, last := rounds[..|rounds| - 1], |rounds| - 1;
      EverHitEarly(s, t, rounds, i) <==> EverHitEarly(s, t, front, i) || HitEarly(s, t, rounds, i, last)
  {
    var front := rounds[..|rounds| - 1];
    assert forall k: nat :: k < |front| ==> front[..k] == rounds[..k];
    assert forall k: nat :: k < |front| ==> (HitEarly(s, t, front, i, k) <==> HitEarly(s, t, rounds, i, k));
  }

  /** What has become of an eligible row, whatever the clock did: it is as it was, or has been corrected at or past
      the cutoff, or was hit early, after which only further corrections can end its eligibility. */
  ghost predicate AnyClock(s: Scope, init: Row, r: Row, early: bool) {
    && r.provider == init.provider && r.cacheRead == init.cacheRead && r.workspace == init.workspace
    && (if early then 0 <= r.input <= Clamped(init) && (Stamp(r) < s.cutoff || r.input < Clamped(init) || r.input == 0)
        else r == init || (r.input == Clamped(init) && Stamp(r) >= s.cutoff))
  }

  lemma {:induction false} RowAtAnyClock(s: Scope, t: Table, rounds: seq<Round>, i: nat)
    requires i < |t| && Eligible(s, t[i])
    ensures AnyClock(s, t[i], AfterRounds(s, t, rounds)[i], EverHitEarly(s, t, rounds, i))
  {
    if rounds != [] {
      var front, last := rounds[..|rounds| - 1], rounds[|rounds| - 1];
      RowAtAnyClock(s, t, front, i);
      EarlySnoc(s, t, rounds, i);
      BatchEligible(s, AfterRounds(s, t, front), last.size);
    }
  }

  /**
   * A finished run at any clock, also one that crosses the cutoff on the way: an eligible row ends at what one pass
   * leaves exactly if it was clamped to zero anyway or no round hit it early.
   */
  lemma OnePassRowExactly(s: Scope, t: Table, rounds: seq<Round>, i: nat)
    requires EligibleRows(s, AfterRounds(s, t, rounds)) == {}
    requires i < |t| && Eligible(s, t[i])
    ensures AfterRounds(s, t, rounds)[i].input == Clamped(t[i]) <==>
      t[i].input <= t[i].cacheRead || !EverHitEarly(s, t, rounds, i)
  {
    RowAtAnyClock(s, t, rounds, i);
    assert i !in EligibleRows(s, AfterRounds(s, t, rounds));
  }

  /** No row with something left to lose was hit early. */
  ghost predicate NoneHitEarly(s: Scope, t: Table, rounds: seq<Round>) {
    forall i: nat :: i < |t| && Eligible(s, t[i]) && t[i].input > t[i].cacheRead ==> !EverHitEarly(s, t, rounds, i)
  }

  /** A finished run removes the dry run's overcount exactly when no row with something left to lose was hit early. */
  lemma OverRemovalExactly(s: Scope, t: Table, rounds: seq<Round>)
    requires EligibleRows(s, AfterRounds(s, t, rounds)) == {}
    ensures RemovedByRounds(s, t, rounds) >= DryRun(s, t, |t|).overcount
    ensures RemovedByRounds(s, t, rounds) == DryRun(s, t, |t|).overcount <==>
      NoneHitEarly(s, t, rounds)
  {
    RoundsConserve(s, t, rounds);
    var r := AfterRounds(s, t, rounds);
    forall i: nat | i < |t|
      ensures r[i].input <= AfterOnePass(s, t[i])
      ensures r[i].input == AfterOnePass(s, t[i]) <==>
        !(Eligible(s, t[i]) && t[i].input > t[i].cacheRead && EverHitEarly(s, t, rounds, i))
    {
      if Eligible(s, t[i]) {
        RowAtAnyClock(s, t, rounds, i);
        OnePassRowExactly(s, t, rounds, i);
        assert i !in EligibleRows(s, r);
      } else {
        NeverEligibleStays(s, t, rounds, i);
      }
    }
    BelowOnePass(s, t, r, |t|);
  }

  function AfterOnePass(s: Scope, r: Row): int {
    if Eligible(s, r) then Clamped(r) else r.input
  }

  lemma {:induction false} NeverEligibleStays(s: Scope, t: Table, rounds: seq<Round>, i: nat)
    requires i < |t| && !Eligible(s, t[i])
    ensures AfterRounds(s, t, rounds)[i] == t[i]
  {
    if rounds != [] {
      var front := rounds[..|rounds| - 1];
      NeverEligibleStays(s, t, front, i);
      BatchEligible(s, AfterRounds(s, t, front), rounds[|rounds| - 1].size);
    }
  }

  lemma {:induction false} BelowOnePass(s: Scope, t: Table, r: Table, n: nat)
    requires |r| == |t| && n <= |t|
    requires forall i: nat :: i < n ==> r[i].input <= AfterOnePass(s, t[i])
    ensures InputOf(t, n) - InputOf(r, n) >= DryRun(s, t, n).overcount
    ensures InputOf(t, n) - InputOf(r, n) == DryRun(s, t, n).overcount <==>
      forall i: nat :: i < n ==> r[i].input == AfterOnePass(s, t[i])
  {
    if n > 0 {
      BelowOnePass(s, t, r, n - 1);
    }
  }

  /** With the clock before the cutoff throughout, a finished run leaves every eligible row at zero. */
  lemma LaggingClockZeroes(s: Scope, t: Table, rounds: seq<Round>, i: nat)
    requires forall k :: 0 <= k < |rounds| ==> rounds[k].now < s.cutoff
    requires EligibleRows(s, AfterRounds(s, t, rounds)) == {}
    requires i < |t| && Eligible(s, t[i])
    ensures AfterRounds(s, t, rounds)[i].input == 0
  {
    RowAtAnyClock(s, t, rounds, i);
    StampsBefore(s, t, rounds, i, s.cutoff);
    assert i !in EligibleRows(s, AfterRounds(s, t, rounds));
  }

  lemma {:induction false} StampsBefore(s: Scope, t: Table, rounds: seq<Round>, i: nat, limit: int)
    requires forall k :: 0 <= k < |rounds| ==> rounds[k].now < limit
    requires i < |t| && Stamp(t[i]) < limit
    ensures Stamp(AfterRounds(s, t, rounds)[i]) < limit
  {
    if rounds != [] {
      StampsBefore(s, t, rounds[..|rounds| - 1], i, limit);
    }
  }

  /** A clock that crosses the cutoff between two rounds: 100 tokens of which 30 were cached end at 40, where one pass
      leaves 70 and a clock that stays behind leaves none. */
  lemma CrossingClockCorrectsTwice(s: Scope, r: Row)
    requires s == Scope(1000, "") && r == Row("codex", 100, 30, None, 0, Some("w"))
    ensures var after := AfterRounds(s, [r], [Round(1, 999), Round(1, 1000)]);
      EligibleRows(s, after) == {} && after[0].input == 40 && Clamped(r) == 70
  {
    var one, two := [Round(1, 999)], [Round(1, 999), Round(1, 1000)];
    assert two[..1] == one && one[..0] == [];
    var u := [Corrected(r, 999)];
    LoneRow(s, r);
    assert AfterRounds(s, [r], one) == u;
    LoneRow(s, u[0]);
  }

  lemma LoneRow(s: Scope, r: Row)
    requires Eligible(s, r)
    ensures Batch(s, [r], 1) == {0}
  {
    assert Oldest(s, [r], {}, 0).None?;
    assert Oldest(s, [r], {}, 1) == Some(0);
    assert Batch(s, [r], 0) == {};
  }

  // ---------------------------------------------------------------------------------------------
  // The window the rollup is rebuilt over afterwards
  // ---------------------------------------------------------------------------------------------

  const SECOND: int := 1_000_000

  /** A second is added at both ends of the run. */
  predicate InRollupWindow(startedAt: int, finishedAt: int, instant: int) {
    startedAt - SECOND <= instant < finishedAt + SECOND
  }

  /** Every row a run changed is dated within the window its rollup is rebuilt over. */
  lemma {:induction false} RebuildCoversRun(s: Scope, t: Table, rounds: seq<Round>, startedAt: int, finishedAt: int, i: nat)
    requires forall k :: 0 <= k < |rounds| ==> startedAt <= rounds[k].now <= finishedAt
    requires i < |t| && AfterRounds(s, t, rounds)[i] != t[i]
    ensures InRollupWindow(startedAt, finishedAt, Stamp(AfterRounds(s, t, rounds)[i]))
  {
    if rounds != [] {
      var front, last := rounds[..|rounds| - 1], rounds[|rounds| - 1];
      var u := AfterRounds(s, t, front);
      if i !in Batch(s, u, last.size) {
        RebuildCoversRun(s, t, front, startedAt, finishedAt, i);
      }
    }
  }

  ghost predicate Taken(s: Scope, t: Table, rounds: seq<Round>, i: nat, k: nat) {
    k < |rounds| && i in Batch(s, AfterRounds(s, t, rounds[..k]), rounds[k].size)
  }

  lemma TakenSnoc(s: Scope, t: Table, rounds: seq<Round>, i: nat, k: nat)
    requires rounds != [] && k < |rounds| - 1
    ensures Taken(s, t, rounds[..|rounds| - 1], i, k) <==> Taken(s, t, rounds, i, k)
  {
    assert rounds[..|rounds| - 1][..k] == rounds[..k];
  }

  /** Past the cutoff a row taken in round k ends as corrected then, whatever follows. */
  lemma {:induction false} TakenOnce(s: Scope, t: Table, rounds: seq<Round>, i: nat, k: nat)
    requires ClockPastCutoff(s, rounds) && Taken(s, t, rounds, i, k)
    ensures i < |t| && Eligible(s, t[i]) && AfterRounds(s, t, rounds)[i] == Corrected(t[i], rounds[k].now)
  {
    var front, last := rounds[..|rounds| - 1], rounds[|rounds| - 1];
    var u := AfterRounds(s, t, front);
    BatchEligible(s, u, last.size);
    RoundsProgress(s, t, front);
    if k == |rounds| - 1 {
      assert rounds[..k] == front;
      StillInitial(s, t[i], u[i]);
    } else {
      TakenSnoc(s, t, rounds, i, k);
      TakenOnce(s, t, front, i, k);
      CorrectionEndsEligibility(s, t[i], front[k].now);
    }
  }

  /** A row that has changed was taken in some round. */
  lemma {:induction false} ChangedWasTaken(s: Scope, t: Table, rounds: seq<Round>, i: nat) returns (k: nat)
    requires i < |t| && AfterRounds(s, t, rounds)[i] != t[i]
    ensures Taken(s, t, rounds, i, k)
  {
    var front, last := rounds[..|rounds| - 1], rounds[|rounds| - 1];
    if i in Batch(s, AfterRounds(s, t, front), last.size) {
      k := |rounds| - 1;
      assert rounds[..k] == front;
    } else {
      k := ChangedWasTaken(s, t, front, i);
      TakenSnoc(s, t, rounds, i, k);
    }
  }

  /** What the first run corrected the second leaves alone. */
  lemma FirstRunStays(s: Scope, t: Table, first: seq<Round>, second: seq<Round>, i: nat, k: nat)
    requires ClockPastCutoff(s, first) && ClockPastCutoff(s, second) && Taken(s, t, first, i, k)
    ensures i < |t| && AfterRounds(s, AfterRounds(s, t, first), second)[i] == Corrected(t[i], first[k].now) != t[i]
  {
    var u := AfterRounds(s, t, first);
    TakenOnce(s, t, first, i, k);
    CorrectionEndsEligibility(s, t[i], first[k].now);
    RoundsProgress(s, u, second);
  }

  /** Every round of a run that took rows at all was in the window. */
  ghost predicate BatchesInWindow(s: Scope, t: Table, rounds: seq<Round>, startedAt: int) {
    forall k :: 0 <= k < |rounds| && Batch(s, AfterRounds(s, t, rounds[..k]), rounds[k].size) != {} ==>
      startedAt - SECOND <= rounds[k].now
  }

  /** A run is interrupted and a later one finishes the work: the later one's window covers every row that the two
      corrected exactly if no batch of the earlier one is more than a second older than the start of the later. */
  lemma WindowCoversExactly(s: Scope, t: Table, first: seq<Round>, second: seq<Round>, startedAt: int, finishedAt: int)
    requires ClockPastCutoff(s, first) && ClockPastCutoff(s, second) && startedAt <= finishedAt
    requires forall k :: 0 <= k < |first| ==> first[k].now <= startedAt
    requires forall k :: 0 <= k < |second| ==> startedAt <= second[k].now <= finishedAt
    ensures var r := AfterRounds(s, AfterRounds(s, t, first), second);
      (forall i :: 0 <= i < |t| && r[i] != t[i] ==> InRollupWindow(startedAt, finishedAt, Stamp(r[i]))) <==>
      BatchesInWindow(s, t, first, startedAt)
  {
    var u := AfterRounds(s, t, first);
    var r := AfterRounds(s, u, second);
    if BatchesInWindow(s, t, first, startedAt) {
      forall i | 0 <= i < |t| && r[i] != t[i] ensures InRollupWindow(startedAt, finishedAt, Stamp(r[i])) {
        if u[i] != t[i] {
          var k := ChangedWasTaken(s, t, first, i);
          FirstRunStays(s, t, first, second, i, k);
        } else {
          RebuildCoversRun(s, u, second, startedAt, finishedAt, i);
        }
      }
    }
    if forall i :: 0 <= i < |t| && r[i] != t[i] ==> InRollupWindow(startedAt, finishedAt, Stamp(r[i])) {
      forall k | 0 <= k < |first| && Batch(s, AfterRounds(s, t, first[..k]), first[k].size) != {}
        ensures startedAt - SECOND <= first[k].now
      {
        var i :| i in Batch(s, AfterRounds(s, t, first[..k]), first[k].size);
        FirstRunStays(s, t, first, second, i, k);
      }
    }
  }

  /** The rollup is rebuilt at an instant if the run updated any row at all and its window holds the instant. */
  ghost predicate Rebuilt(s: Scope, u: Table, rounds: seq<Round>, startedAt: int, finishedAt: int, instant: int) {
    RowsByRounds(s, u, rounds) > 0 && InRollupWindow(startedAt, finishedAt, instant)
  }

  ghost predicate AnyBatch(s: Scope, t: Table, rounds: seq<Round>) {
    exists k :: 0 <= k < |rounds| && Batch(s, AfterRounds(s, t, rounds[..k]), rounds[k].size) != {}
  }

  /** After an interruption and a rerun the rollup is rebuilt for every corrected row exactly if the first run corrected
      none, or the second corrected some and began within a second of all the batches of the first. */
  lemma RerunRebuildsExactly(s: Scope, t: Table, first: seq<Round>, second: seq<Round>, startedAt: int, finishedAt: int)
    requires ClockPastCutoff(s, first) && ClockPastCutoff(s, second) && startedAt <= finishedAt
    requires forall k :: 0 <= k < |first| ==> first[k].now <= startedAt
    requires forall k :: 0 <= k < |second| ==> startedAt <= second[k].now <= finishedAt
    ensures var u := AfterRounds(s, t, first);
      var r := AfterRounds(s, u, second);
      (forall i :: 0 <= i < |t| && r[i] != t[i] ==> Rebuilt(s, u, second, startedAt, finishedAt, Stamp(r[i]))) <==>
      (AnyBatch(s, t, first) ==> RowsByRounds(s, u, second) > 0 && BatchesInWindow(s, t, first, startedAt))
  {
    WindowCoversExactly(s, t, first, second, startedAt, finishedAt);
    var u := AfterRounds(s, t, first);
    var r := AfterRounds(s, u, second);
    if k :| 0 <= k < |first| && Batch(s, AfterRounds(s, t, first[..k]), first[k].size) != {} {
      var i :| i in Batch(s, AfterRounds(s, t, first[..k]), first[k].size);
      FirstRunStays(s, t, first, second, i, k);
    } else {
      forall i | 0 <= i < |t| && r[i] != t[i] ensures RowsByRounds(s, u, second) > 0 {
        if u[i] != t[i] {
          var k := ChangedWasTaken(s, t, first, i);
        }
        NoRowsNoChange(s, u, second);
      }
    }
  }

  lemma {:induction false} NoRowsNoChange(s: Scope, t: Table, rounds: seq<Round>)
    ensures RowsByRounds(s, t, rounds) == 0 ==> AfterRounds(s, t, rounds) == t
  {
    if rounds != [] {
      NoRowsNoChange(s, t, rounds[..|rounds| - 1]);
    }
  }

  /** In particular what a run more than a second older corrected is neither in the rerun's window nor corrected again. */
  lemma RerunRebuildsOnlyItsOwn(s: Scope, t: Table, first: seq<Round>, second: seq<Round>, startedAt: int,
                                finishedAt: int, i: nat)
    requires ClockPastCutoff(s, first) && ClockPastCutoff(s, second)
    requires forall k :: 0 <= k < |first| ==> first[k].now < startedAt - SECOND
    requires i < |t| && AfterRounds(s, t, first)[i] != t[i]
    ensures var u := AfterRounds(s, t, first);
      AfterRounds(s, u, second)[i] == u[i] && !InRollupWindow(startedAt, finishedAt, Stamp(u[i]))
  {
    var k := ChangedWasTaken(s, t, first, i);
    TakenOnce(s, t, first, i, k);
    FirstRunStays(s, t, first, second, i, k);
  }

  // ---------------------------------------------------------------------------------------------
  // The loops
  // ---------------------------------------------------------------------------------------------

  /** What bounds the loop whatever the clock says: the positive input left. */
  function Weight(t: Table, n: nat): nat
    requires n <= |t|
  {
    if n == 0 then 0 else Weight(t, n - 1) + if t[n - 1].input > 0 then t[n - 1].input else 0
  }

  lemma {:induction false} BatchLightens(s: Scope, t: Table, chosen: set<nat>, now: int, n: nat)
    requires n <= |t| && chosen <= EligibleRows(s, t)
    ensures Weight(AfterBatch(t, chosen, now), n) <= Weight(t, n)
    ensures (exists i :: i in chosen && i < n) ==> Weight(AfterBatch(t, chosen, now), n) < Weight(t, n)
  {
    if n > 0 {
      BatchLightens(s, t, chosen, now, n - 1);
    }
  }

  lemma RoundsSnoc(s: Scope, t: Table, rounds: seq<Round>, r: Round)
    ensures var u := AfterRounds(s, t, rounds);
      && AfterRounds(s, t, rounds + [r]) == AfterBatch(u, Batch(s, u, r.size), r.now)
      && RemovedByRounds(s, t, rounds + [r]) == RemovedByRounds(s, t, rounds) + Removed(u, |u|, Batch(s, u, r.size))
      && RowsByRounds(s, t, rounds + [r]) == RowsByRounds(s, t, rounds) + |Batch(s, u, r.size)|
  {
    assert (rounds + [r])[..|rounds|] == rounds;
  }

  /** What the loop hears of a statement: its result, or an error although it may have taken effect. */
  datatype Answer = Fine | Broken(applied: bool)

  /** The table and the totals at some point of a run. */
  datatype Standing = Standing(table: Table, removed: int, rows: nat)

  function After(s: Scope, at: Standing, size: nat, now: int): Standing {
    var chosen := Batch(s, at.table, size);
    Standing(AfterBatch(at.table, chosen, now), at.removed + Removed(at.table, |at.table|, chosen), at.rows + |chosen|)
  }

  function StandingAfter(s: Scope, t: Table, rounds: seq<Round>): Standing {
    Standing(AfterRounds(s, t, rounds), RemovedByRounds(s, t, rounds), RowsByRounds(s, t, rounds))
  }

  function RoundsMade(size: nat, clock: nat -> int, n: nat): seq<Round> {
    seq(n, k requires 0 <= k < n => Round(size, clock(k)))
  }

  /** The standings of a run, statement by statement. */
  type Course = nat -> Standing

  ghost predicate Goes(s: Scope, course: Course, size: nat, clock: nat -> int, k: nat) {
    course(k + 1) == After(s, course(k), size, clock(k))
  }

  ghost predicate IsCourse(s: Scope, course: Course, size: nat, clock: nat -> int) {
    forall k: nat :: Goes(s, course, size, clock, k)
  }

  lemma TheCourse(s: Scope, t: Table, size: nat, clock: nat -> int) returns (course: Course)
    ensures IsCourse(s, course, size, clock)
    ensures forall n :: course(n) == StandingAfter(s, t, RoundsMade(size, clock, n))
  {
    course := (n: nat) => StandingAfter(s, t, RoundsMade(size, clock, n));
    forall k: nat ensures Goes(s, course, size, clock, k) {
      OneMoreRound(s, t, size, clock, k);
    }
  }

  lemma OneMoreRound(s: Scope, t: Table, size: nat, clock: nat -> int, k: nat)
    ensures StandingAfter(s, t, RoundsMade(size, clock, k + 1)) ==
      After(s, StandingAfter(s, t, RoundsMade(size, clock, k)), size, clock(k))
  {
    assert RoundsMade(size, clock, k + 1) == RoundsMade(size, clock, k) + [Round(size, clock(k))];
    RoundsSnoc(s, t, RoundsMade(size, clock, k), Round(size, clock(k)));
  }

  class TaskUsage {
    var rows: Table

    /** One statement of the loop: the oldest eligible rows are corrected. An empty batch means none is eligible. */
    method RunBatch(s: Scope, batchSize: nat, now: int) returns (updated: nat, removed: int)
      requires batchSize > 0
      modifies this
      ensures var chosen := Batch(s, old(rows), batchSize);
        && rows == AfterBatch(old(rows), chosen, now)
        && updated == |chosen| && removed == Removed(old(rows), |old(rows)|, chosen)
      ensures updated == 0 ==> rows == old(rows) && EligibleRows(s, rows) == {}
      ensures updated > 0 ==> Weight(rows, |rows|) < Weight(old(rows), |old(rows)|)
    {
      var chosen := Batch(s, rows, batchSize);
      BatchIsOldestFirst(s, rows, batchSize);
      updated, removed := |chosen|, Removed(rows, |rows|, chosen);
      if updated == 0 {
        return;
      }
      BatchLightens(s, rows, chosen, now, |rows|);
      assert exists i :: i in chosen && i < |rows| by {
        var i :| i in chosen;
        assert i in EligibleRows(s, rows);
      }
      rows := AfterBatch(rows, chosen, now);
    }

    /**
     * executeBackfill: batches until one comes back empty; `answer` says which statement fails, or which pause before
     * it is cancelled, and whether the failed statement took effect all the same.  The rounds made are returned for the
     * record; only the last can be one that is not in the totals.
     */
    method ExecuteBackfill(s: Scope, batchSize: nat, clock: nat -> int, answer: nat -> Answer)
      returns (ok: bool, totalRows: nat, totalRemoved: int, ghost rounds: seq<Round>, ghost told: nat)
      requires batchSize > 0
      modifies this
      ensures rows == AfterRounds(s, old(rows), rounds)
      ensures told <= |rounds| && totalRemoved == RemovedByRounds(s, old(rows), rounds[..told])
      ensures totalRows == RowsByRounds(s, old(rows), rounds[..told])
      ensures forall k :: 0 <= k < |rounds| ==> rounds[k] == Round(batchSize, clock(k))
      ensures (forall k :: 0 <= k < told ==> answer(k).Fine?) && (ok <==> answer(told).Fine?)
      ensures |rounds| == told + if answer(told) == Broken(true) then 1 else 0
      ensures ok ==> EligibleRows(s, rows) == {}
      ensures ok ==> (totalRemoved == DryRun(s, old(rows), |old(rows)|).overcount <==> NoneHitEarly(s, old(rows), rounds))
      ensures ok && (forall k :: clock(k) >= s.cutoff) ==>
                && OnePass(s, old(rows), rows)
                && totalRemoved == DryRun(s, old(rows), |old(rows)|).overcount
                && totalRows == |EligibleRows(s, old(rows))|
    {
      ghost var init := rows;
      ghost var course := TheCourse(s, init, batchSize, clock);
      var made;
      ok, totalRows, totalRemoved, made := RunBatches(s, batchSize, clock, answer, course);
      told, rounds := made, RoundsMade(batchSize, clock, made);
      if ok {
        Finished(s, init, rounds);
      } else if answer(made) == Broken(true) {
        var _, _ := NextBatch(s, batchSize, clock, course, made);
        rounds := RoundsMade(batchSize, clock, made + 1);
      }
      assert rounds[..told] == RoundsMade(batchSize, clock, told);
    }

    /** A statement as one more step of the course. */
    method NextBatch(s: Scope, batchSize: nat, clock: nat -> int, ghost course: Course, k: nat)
      returns (updated: nat, removed: int)
      requires batchSize > 0 && rows == course(k).table && IsCourse(s, course, batchSize, clock)
      modifies this
      ensures updated == 0 ==> rows == old(rows) && EligibleRows(s, rows) == {}
      ensures updated > 0 ==> Weight(rows, |rows|) < Weight(old(rows), |old(rows)|)
      ensures course(k + 1) == Standing(rows, course(k).removed + removed, course(k).rows + updated)
    {
      assert Goes(s, course, batchSize, clock, k);
      updated, removed := RunBatch(s, batchSize, clock(k));
    }

    /** The loop, up to the first statement that does not answer or finds nothing to do. */
    method RunBatches(s: Scope, batchSize: nat, clock: nat -> int, answer: nat -> Answer, ghost course: Course)
      returns (ok: bool, totalRows: nat, totalRemoved: int, made: nat)
      requires batchSize > 0 && course(0) == Standing(rows, 0, 0)
      requires IsCourse(s, course, batchSize, clock)
      modifies this
      ensures course(made) == Standing(rows, totalRemoved, totalRows)
      ensures (forall k :: 0 <= k < made ==> answer(k).Fine?) && (ok <==> answer(made).Fine?)
      ensures ok ==> EligibleRows(s, rows) == {}
    {
      totalRows, totalRemoved, ok, made := 0, 0, false, 0;
      while answer(made).Fine?
        invariant course(made) == Standing(rows, totalRemoved, totalRows)
        invariant forall k :: 0 <= k < made ==> answer(k).Fine?
        decreases Weight(rows, |rows|)
      {
        var updated, removed := NextBatch(s, batchSize, clock, course, made);
        if updated == 0 {
          ok := true;
          break;
        }
        totalRows := totalRows + updated;
        totalRemoved := totalRemoved + removed;
        made := made + 1;
      }
    }
  }

  /** What the totals of a finished run say. */
  lemma Finished(s: Scope, t: Table, rounds: seq<Round>)
    requires EligibleRows(s, AfterRounds(s, t, rounds)) == {}
    ensures RemovedByRounds(s, t, rounds) == DryRun(s, t, |t|).overcount <==> NoneHitEarly(s, t, rounds)
    ensures ClockPastCutoff(s, rounds) ==>
      && OnePass(s, t, AfterRounds(s, t, rounds))
      && RemovedByRounds(s, t, rounds) == DryRun(s, t, |t|).overcount
      && RowsByRounds(s, t, rounds) == |EligibleRows(s, t)|
  {
    OverRemovalExactly(s, t, rounds);
    if ClockPastCutoff(s, rounds) {
      AnyBatchingIsOnePass(s, t, rounds);
    }
  }

  /** The grouping columns of the dry run: workspace and UTC day. */
  function GroupKey(r: Row): (Option<string>, int) {
    (r.workspace, r.createdAt / 86_400_000_000)
  }

  function GroupTotals(s: Scope, t: Table, n: nat, key: (Option<string>, int)): Totals
    requires n <= |t|
  {
    if n == 0 then Totals(0, 0, 0, 0, 0)
    else if Eligible(s, t[n - 1]) && GroupKey(t[n - 1]) == key then Plus(GroupTotals(s, t, n - 1, key), RowTotals(t[n - 1]))
    else GroupTotals(s, t, n - 1, key)
  }

  function SumGroups(s: Scope, t: Table, n: nat, keys: seq<(Option<string>, int)>): Totals
    requires n <= |t|
  {
    if keys == [] then Totals(0, 0, 0, 0, 0)
    else Plus(SumGroups(s, t, n, keys[..|keys| - 1]), GroupTotals(s, t, n, keys[|keys| - 1]))
  }

  lemma {:induction false} SumGroupsStep(s: Scope, t: Table, n: nat, keys: seq<(Option<string>, int)>)
    requires 0 < n <= |t| && Distinct(keys)
    ensures SumGroups(s, t, n, keys) ==
            if Eligible(s, t[n - 1]) && GroupKey(t[n - 1]) in keys then Plus(SumGroups(s, t, n - 1, keys), RowTotals(t[n - 1]))
            else SumGroups(s, t, n - 1, keys)
  {
    if keys != [] {
      var front, last := keys[..|keys| - 1], keys[|keys| - 1];
      SumGroupsStep(s, t, n, front);
      assert last !in front;
      assert keys == front + [last];
    }
  }

  lemma {:induction false} GroupsCoverAll(s: Scope, t: Table, n: nat, keys: seq<(Option<string>, int)>)
    requires n <= |t| && Distinct(keys)
    requires forall i :: 0 <= i < n && Eligible(s, t[i]) ==> GroupKey(t[i]) in keys
    ensures SumGroups(s, t, n, keys) == DryRun(s, t, n)
  {
    if n == 0 {
      NothingInGroups(s, t, keys);
    } else {
      GroupsCoverAll(s, t, n - 1, keys);
      SumGroupsStep(s, t, n, keys);
    }
  }

  lemma {:induction false} NothingInGroups(s: Scope, t: Table, keys: seq<(Option<string>, int)>)
    ensures SumGroups(s, t, 0, keys) == Totals(0, 0, 0, 0, 0)
  {
    if keys != [] {
      NothingInGroups(s, t, keys[..|keys| - 1]);
    }
  }

  /** Adding up the groups of the summary counts every eligible row once; `keys` are the groups in query order. */
  method LoadDryRunSummary(s: Scope, t: Table, keys: seq<(Option<string>, int)>) returns (summaries: seq<Totals>, total: Totals)
    requires Distinct(keys) && forall i :: 0 <= i < |t| && Eligible(s, t[i]) ==> GroupKey(t[i]) in keys
    ensures |summaries| == |keys| && forall k :: 0 <= k < |keys| ==> summaries[k] == GroupTotals(s, t, |t|, keys[k])
    ensures total == DryRun(s, t, |t|)
    ensures total.inputBefore == total.inputAfter + total.overcount
  {
    summaries, total := [], Totals(0, 0, 0, 0, 0);
    for i := 0 to |keys|
      invariant |summaries| == i && total == SumGroups(s, t, |t|, keys[..i])
      invariant forall k :: 0 <= k < i ==> summaries[k] == GroupTotals(s, t, |t|, keys[k])
    {
      assert keys[..i + 1][..i] == keys[..i];
      var row := GroupTotals(s, t, |t|, keys[i]);
      summaries := summaries + [row];
      total := Plus(total, row);
    }
    assert keys[..|keys|] == keys;
    GroupsCoverAll(s, t, |t|, keys);
    DryRunBalances(s, t, |t|);
  }
}
