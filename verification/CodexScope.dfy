/**
 * Which rows core/cmd/backfill_codex_usage_cache/main.go changes, and in which columns, said of the rows themselves.
 */
module CodexScope {
  import opened Common
  import opened CodexBackfill

  /** A row of the provider repaired, with cached tokens counted as input, dated before the cutoff, in the workspace
      asked for if one was. */
  predicate Overcounted(s: Scope, r: Row) {
    && r.provider == "codex"
    && r.input > 0 && r.cacheRead > 0
    && (match r.updatedAt case Some(instant) => instant < s.cutoff case None => r.createdAt < s.cutoff)
    && (match r.workspace case Some(id) => s.workspace in {"", id} case None => false)
  }

  ghost predicate NoneOvercounted(s: Scope, t: Table) {
    forall i :: 0 <= i < |t| ==> !Overcounted(s, t[i])
  }

  lemma OvercountedIsEligible(s: Scope, r: Row)
    ensures Overcounted(s, r) <==> Eligible(s, r)
  {
  }

  lemma NoneLeft(s: Scope, t: Table)
    ensures NoneOvercounted(s, t) <==> EligibleRows(s, t) == {}
  {
    forall i: nat | i < |t| ensures i in EligibleRows(s, t) <==> Overcounted(s, t[i]) {
      OvercountedIsEligible(s, t[i]);
    }
  }

  /** What a correction may do to a row: take input away and date it; whatever else it holds stays. */
  ghost predicate Lowered(before: Row, after: Row) {
    && after == before.(input := after.input, updatedAt := after.updatedAt)
    && 0 <= after.input < before.input && after.updatedAt.Some?
  }

  lemma {:induction false} RowIsLowered(s: Scope, t: Table, rounds: seq<Round>, i: nat)
    requires i < |t| && Overcounted(s, t[i])
    ensures var r := AfterRounds(s, t, rounds)[i]; r == t[i] || Lowered(t[i], r)
  {
    if rounds != [] {
      var front := rounds[..|rounds| - 1];
      RowIsLowered(s, t, front, i);
      BatchEligible(s, AfterRounds(s, t, front), rounds[|rounds| - 1].size);
    }
  }

  /** Whatever the batches and the clock: rows that are not overcounted stay as they are, and the others lose input. */
  lemma OnlyOvercountedChange(s: Scope, t: Table, rounds: seq<Round>, i: nat)
    requires i < |t|
    ensures AfterRounds(s, t, rounds)[i] != t[i] ==>
      Overcounted(s, t[i]) && Lowered(t[i], AfterRounds(s, t, rounds)[i])
  {
    OvercountedIsEligible(s, t[i]);
    if Eligible(s, t[i]) {
      RowIsLowered(s, t, rounds, i);
    } else {
      NeverEligibleStays(s, t, rounds, i);
    }
  }

  /** A run that leaves no row overcounted changed exactly the rows that were. */
  lemma FinishedRunChangesExactly(s: Scope, t: Table, rounds: seq<Round>, i: nat)
    requires i < |t| && NoneOvercounted(s, AfterRounds(s, t, rounds))
    ensures AfterRounds(s, t, rounds)[i] != t[i] <==> Overcounted(s, t[i])
    ensures ClockPastCutoff(s, rounds) && Overcounted(s, t[i]) ==>
      AfterRounds(s, t, rounds)[i].input == if t[i].cacheRead < t[i].input then t[i].input - t[i].cacheRead else 0
  {
    OnlyOvercountedChange(s, t, rounds, i);
    NoneLeft(s, AfterRounds(s, t, rounds));
    if ClockPastCutoff(s, rounds) {
      AnyBatchingIsOnePass(s, t, rounds);
      OvercountedIsEligible(s, t[i]);
    }
  }

  // ---------------------------------------------------------------------------------------------
  // What the summary adds up
  // ---------------------------------------------------------------------------------------------

  function SumWhere(t: Table, n: nat, keep: Row -> bool, of: Row -> int): int
    requires n <= |t|
  {
    if n == 0 then 0 else SumWhere(t, n - 1, keep, of) + if keep(t[n - 1]) then of(t[n - 1]) else 0
  }

  /** The five figures of the summary, over the rows kept among the first n. */
  ghost predicate AddsUp(d: Totals, t: Table, n: nat, keep: Row -> bool)
    requires n <= |t|
  {
    && d.rows == SumWhere(t, n, keep, (r: Row) => 1)
    && d.inputBefore == SumWhere(t, n, keep, (r: Row) => r.input)
    && d.inputAfter == SumWhere(t, n, keep, (r: Row) => if r.cacheRead < r.input then r.input - r.cacheRead else 0)
    && d.overcount == SumWhere(t, n, keep, (r: Row) => if r.cacheRead < r.input then r.cacheRead else r.input)
    && d.clampedRows == SumWhere(t, n, keep, (r: Row) => if r.input < r.cacheRead then 1 else 0)
  }

  lemma {:induction false} SummaryAddsUp(s: Scope, t: Table, n: nat)
    requires n <= |t|
    ensures AddsUp(DryRun(s, t, n), t, n, (r: Row) => Overcounted(s, r))
  {
    if n > 0 {
      SummaryAddsUp(s, t, n - 1);
      OvercountedIsEligible(s, t[n - 1]);
    }
  }

  const DAY: int := 86_400_000_000

  /** Each group adds up the rows of its workspace and its day. */
  lemma {:induction false} GroupAddsUp(s: Scope, t: Table, n: nat, workspace: Option<string>, day: int)
    requires n <= |t|
    ensures AddsUp(GroupTotals(s, t, n, (workspace, day)), t, n, (r: Row) =>
      Overcounted(s, r) && r.workspace == workspace && day * DAY <= r.createdAt < (day + 1) * DAY)
  {
    if n > 0 {
      GroupAddsUp(s, t, n - 1, workspace, day);
      OvercountedIsEligible(s, t[n - 1]);
      assert t[n - 1].createdAt / DAY == day <==> day * DAY <= t[n - 1].createdAt < (day + 1) * DAY;
    }
  }
}
