/**
 * core/cmd/migrate/main.go, in either direction: a record changes only at the hand of the runner that has just run
 * that version's SQL in its turn, and hooks run only on the way up.
 */
module MigrateHistory {
  import opened Common
  import opened Migrate

  /** The version's turn, spelled out: it has yet to change, and every file listed before it has changed. */
  ghost predicate InTurn(c: Config, recorded: seq<Version>, v: Version) {
    && (v in recorded <==> !c.up)
    && exists i :: IsTurn(c, recorded, v, i)
  }

  ghost predicate IsTurn(c: Config, recorded: seq<Version>, v: Version, i: nat) {
    i < |c.files| && c.files[i] == v && forall j :: 0 <= j < i ==> (c.files[j] in recorded <==> c.up)
  }

  lemma TurnIsInTurn(c: Config, recorded: seq<Version>, i: nat)
    requires Turn(c, recorded, i)
    ensures InTurn(c, recorded, c.files[i])
  {
    forall j | 0 <= j < i ensures c.files[j] in recorded <==> c.up {
      assert Settled(c, recorded, c.files[j]);
    }
    assert IsTurn(c, recorded, c.files[i], i);
  }

  // ---------------------------------------------------------------------------------------------
  // One step
  // ---------------------------------------------------------------------------------------------

  /** SQL runs in list order, on a version that has yet to change. */
  lemma SqlStep(c: Config, init: seq<Version>, s: State, step: Step, e: Event)
    requires Inv(c, init, s) && Next(c, s, step).Some? && Next(c, s, step).value.log == s.log + [e] && e.SqlRan?
    ensures e.who == step.r && InTurn(c, s.recorded, e.version)
  {
    var t, p := Next(c, s, step).value, s.phase[step.r];
    assert t.log[|s.log|] == e;
    assert PhaseOk(c, s, step.r, p) && p.Executing?;
    TurnIsInTurn(c, s.recorded, p.i);
  }

  /** A record changes only while the mover is about to record that version. */
  lemma ChangeStep(c: Config, init: seq<Version>, s: State, step: Step, v: Version)
    requires Inv(c, init, s) && Next(c, s, step).Some?
    requires (v in s.recorded) != (v in Next(c, s, step).value.recorded)
    ensures step.r in s.phase && s.phase[step.r].Recording? && s.phase[step.r].i < |c.files|
    ensures c.files[s.phase[step.r].i] == v
  {
    EffectFacts(c, s, step.r, s.phase[step.r]);
    assert PhaseOk(c, s, step.r, s.phase[step.r]);
  }

  /** How a runner comes to be about to record: it runs the SQL, and until then nobody touches the table. */
  lemma TurnToRecording(c: Config, init: seq<Version>, s: State, step: Step, r: RunnerId)
    requires Distinct(c.files) && Inv(c, init, s) && Next(c, s, step).Some?
    requires var t := Next(c, s, step).value; r in t.phase && t.phase[r].Recording?
    ensures var t := Next(c, s, step).value; t.recorded == s.recorded && t.phase[r].i < |c.files|
    ensures var t := Next(c, s, step).value;
      if step.r == r then t.log == s.log + [SqlRan(r, c.files[t.phase[r].i])]
      else r in s.phase && s.phase[r] == t.phase[r] && LastOf(t.log, r) == LastOf(s.log, r)
  {
    StepFrame(c, s, step);
    StepKeepsInv(c, init, s, step);
    var t := Next(c, s, step).value;
    assert PhaseOk(c, t, r, t.phase[r]);
    if step.r == r {
      assert PhaseOk(c, s, r, s.phase[r]);
    } else {
      OthersLeaveTable(c, s, step, r);
    }
  }

  lemma OthersLeaveTable(c: Config, s: State, step: Step, r: RunnerId)
    requires Exclusive(s) && Next(c, s, step).Some? && step.r != r && r in s.phase && Locked(s.phase[r])
    ensures Next(c, s, step).value.recorded == s.recorded
  {
    StepFrame(c, s, step);
  }

  // ---------------------------------------------------------------------------------------------
  // Whole runs
  // ---------------------------------------------------------------------------------------------

  /** Where a run from the initial table stands after its first k steps. */
  ghost predicate IsAt(c: Config, start: State, steps: seq<Step>, k: nat, s: State) {
    k <= |steps| && Run(c, start, steps[..k]) == Some(s)
  }

  lemma StepBefore(c: Config, start: State, steps: seq<Step>, k: nat, t: State) returns (s: State)
    requires k > 0 && IsAt(c, start, steps, k, t)
    ensures IsAt(c, start, steps, k - 1, s) && Next(c, s, steps[k - 1]) == Some(t)
  {
    assert steps[..k][..k - 1] == steps[..k - 1];
    s := Run(c, start, steps[..k - 1]).value;
  }

  /** From step m to step k the table is this one, and r's last event this one once step m is made. */
  ghost predicate Untouched(c: Config, start: State, steps: seq<Step>, m: nat, k: nat, s: State, r: RunnerId, e: Event) {
    forall n: nat, u: State :: m <= n <= k && IsAt(c, start, steps, n, u) ==>
      u.recorded == s.recorded && (n > m ==> LastOf(u.log, r) == Some(e))
  }

  /** Step m, taken in state b, is r's and runs the SQL of v in v's turn. */
  ghost predicate RanSql(c: Config, start: State, steps: seq<Step>, m: nat, b: State, r: RunnerId, v: Version) {
    && m < |steps| && steps[m].r == r && IsAt(c, start, steps, m, b)
    && Next(c, b, steps[m]).Some? && Next(c, b, steps[m]).value.log == b.log + [SqlRan(r, v)]
    && InTurn(c, b.recorded, v)
  }

  /** A runner about to record a version ran its SQL at an earlier step, in its turn. */
  lemma {:induction false} SinceSql(c: Config, init: seq<Version>, created: bool, steps: seq<Step>, k: nat, s: State,
                                    r: RunnerId) returns (m: nat, b: State)
    requires Distinct(c.files) && IsAt(c, Initial(init, created), steps, k, s)
    requires r in s.phase && s.phase[r].Recording?
    ensures s.phase[r].i < |c.files|
    ensures m < k && RanSql(c, Initial(init, created), steps, m, b, r, c.files[s.phase[r].i])
    ensures Untouched(c, Initial(init, created), steps, m, k, s, r, SqlRan(r, c.files[s.phase[r].i]))
    decreases k
  {
    var start := Initial(init, created);
    var u, v := RecordingBefore(c, init, created, steps, k, s, r);
    if steps[k - 1].r == r {
      m, b := k - 1, u;
      NothingBetween(c, start, steps, k - 1, u, r, SqlRan(r, v));
    } else {
      m, b := SinceSql(c, init, created, steps, k - 1, u, r);
    }
    OneMore(c, start, steps, m, k - 1, u, s, r, SqlRan(r, v));
  }

  /** The step before. */
  lemma RecordingBefore(c: Config, init: seq<Version>, created: bool, steps: seq<Step>, k: nat, s: State, r: RunnerId)
    returns (u: State, v: Version)
    requires Distinct(c.files) && IsAt(c, Initial(init, created), steps, k, s)
    requires r in s.phase && s.phase[r].Recording?
    ensures s.phase[r].i < |c.files| && v == c.files[s.phase[r].i] && LastOf(s.log, r) == Some(SqlRan(r, v))
    ensures k > 0 && IsAt(c, Initial(init, created), steps, k - 1, u) && Next(c, u, steps[k - 1]) == Some(s)
    ensures u.recorded == s.recorded
    ensures if steps[k - 1].r == r then s.log == u.log + [SqlRan(r, v)] && InTurn(c, u.recorded, v)
            else r in u.phase && u.phase[r] == s.phase[r]
  {
    RunKeepsInv(c, init, created, steps[..k]);
    assert PhaseOk(c, s, r, s.phase[r]);
    u := StepBefore(c, Initial(init, created), steps, k, s);
    v := c.files[s.phase[r].i];
    RunKeepsInv(c, init, created, steps[..k - 1]);
    TurnToRecording(c, init, u, steps[k - 1], r);
    if steps[k - 1].r == r {
      SqlStep(c, init, u, steps[k - 1], SqlRan(r, v));
    }
  }

  lemma NothingBetween(c: Config, start: State, steps: seq<Step>, k: nat, s: State, r: RunnerId, e: Event)
    requires IsAt(c, start, steps, k, s)
    ensures Untouched(c, start, steps, k, k, s, r, e)
  {
  }

  lemma OneMore(c: Config, start: State, steps: seq<Step>, m: nat, k: nat, u: State, s: State, r: RunnerId, e: Event)
    requires Untouched(c, start, steps, m, k, u, r, e) && IsAt(c, start, steps, k + 1, s)
    requires s.recorded == u.recorded && LastOf(s.log, r) == Some(e)
    ensures Untouched(c, start, steps, m, k + 1, s, r, e)
  {
  }

  /**
   * In either direction, whenever a step enters or removes a version's record, the runner that makes it had run that
   * version's SQL before as its last event, in the version's turn, and nobody changed the table in between.
   */
  lemma ChangedAfterOwnSql(c: Config, init: seq<Version>, created: bool, steps: seq<Step>, k: nat, s: State, t: State,
                           v: Version) returns (m: nat, b: State)
    requires Distinct(c.files) && k < |steps|
    requires IsAt(c, Initial(init, created), steps, k, s) && IsAt(c, Initial(init, created), steps, k + 1, t)
    requires (v in s.recorded) != (v in t.recorded)
    ensures v in c.files && (v in s.recorded <==> !c.up)
    ensures LastOf(s.log, steps[k].r) == Some(SqlRan(steps[k].r, v))
    ensures m < k && RanSql(c, Initial(init, created), steps, m, b, steps[k].r, v)
    ensures Untouched(c, Initial(init, created), steps, m, k, s, steps[k].r, SqlRan(steps[k].r, v))
  {
    var _ := StepBefore(c, Initial(init, created), steps, k + 1, t);
    RunKeepsInv(c, init, created, steps[..k]);
    ChangeStep(c, init, s, steps[k], v);
    m, b := SinceSql(c, init, created, steps, k, s, steps[k].r);
  }

  /** SQL runs in list order, on a version that has yet to change, in either direction. */
  lemma SqlInTurn(c: Config, init: seq<Version>, created: bool, steps: seq<Step>, k: nat, s: State, t: State, e: Event)
    requires Distinct(c.files) && k < |steps|
    requires IsAt(c, Initial(init, created), steps, k, s) && IsAt(c, Initial(init, created), steps, k + 1, t)
    requires t.log == s.log + [e] && e.SqlRan?
    ensures e.who == steps[k].r && InTurn(c, s.recorded, e.version)
  {
    var _ := StepBefore(c, Initial(init, created), steps, k + 1, t);
    RunKeepsInv(c, init, created, steps[..k]);
    SqlStep(c, init, s, steps[k], e);
  }

  /** A hook is due only on the way up, for a listed version that has one. */
  predicate HookDue(c: Config, v: Version) {
    c.up && v in c.files && v in c.hooked
  }

  predicate HookPhaseDue(c: Config, p: Phase) {
    p.Hooking? || p.Severed? ==> p.i < |c.files| && HookDue(c, c.files[p.i])
  }

  ghost predicate HooksDue(c: Config, s: State) {
    && (forall e :: e in s.log && e.HookRan? ==> HookDue(c, e.version))
    && forall r :: r in s.phase ==> HookPhaseDue(c, s.phase[r])
  }

  /** No other hook ever runs. */
  lemma {:induction false} OnlyDueHooksRun(c: Config, init: seq<Version>, created: bool, steps: seq<Step>)
    requires Run(c, Initial(init, created), steps).Some?
    ensures HooksDue(c, Run(c, Initial(init, created), steps).value)
  {
    if steps != [] {
      OnlyDueHooksRun(c, init, created, steps[..|steps| - 1]);
      HookStep(c, Run(c, Initial(init, created), steps[..|steps| - 1]).value, steps[|steps| - 1]);
    }
  }

  lemma HookStep(c: Config, s: State, step: Step)
    requires HooksDue(c, s) && Next(c, s, step).Some?
    ensures HooksDue(c, Next(c, s, step).value)
  {
    HookPlace(c, s, step);
    HookLogged(c, s, step);
  }

  lemma HookPlace(c: Config, s: State, step: Step)
    requires HooksDue(c, s) && Next(c, s, step).Some?
    ensures var t := Next(c, s, step).value; forall r :: r in t.phase ==> HookPhaseDue(c, t.phase[r])
  {
    StepFrame(c, s, step);
    MoverHook(c, s, step);
  }

  lemma MoverHook(c: Config, s: State, step: Step)
    requires Next(c, s, step).Some? && (step.r in s.phase ==> HookPhaseDue(c, s.phase[step.r]))
    ensures step.r in Next(c, s, step).value.phase && HookPhaseDue(c, Next(c, s, step).value.phase[step.r])
  {
  }

  lemma HookLogged(c: Config, s: State, step: Step)
    requires HooksDue(c, s) && Next(c, s, step).Some?
    ensures forall e :: e in Next(c, s, step).value.log && e.HookRan? ==> HookDue(c, e.version)
  {
    var t := Next(c, s, step).value;
    if t.log != s.log {
      assert t.log == s.log + [t.log[|s.log|]];
    }
  }

  /** The table exists before a runner asks it anything, and before anything is run. */
  ghost predicate TableReady(s: State) {
    && (s.log != [] ==> s.created)
    && forall r :: r in s.phase && Works(s.phase[r]) ==> s.created
  }

  predicate Works(p: Phase) {
    p.Checking? || p.Reading? || p.Hooking? || p.Executing? || p.Recording? || p.Severed?
  }

  lemma {:induction false} TableComesFirst(c: Config, init: seq<Version>, created: bool, steps: seq<Step>)
    requires Run(c, Initial(init, created), steps).Some?
    ensures TableReady(Run(c, Initial(init, created), steps).value)
  {
    if steps != [] {
      TableComesFirst(c, init, created, steps[..|steps| - 1]);
      TableStays(c, Run(c, Initial(init, created), steps[..|steps| - 1]).value, steps[|steps| - 1]);
    }
  }

  lemma TableStays(c: Config, s: State, step: Step)
    requires TableReady(s) && Next(c, s, step).Some?
    ensures TableReady(Next(c, s, step).value)
  {
  }

  // ---------------------------------------------------------------------------------------------
  // What one call runs
  // ---------------------------------------------------------------------------------------------

  /** The versions among the first n files that have to change, in list order. */
  function Due(c: Config, recorded: seq<Version>, n: nat): seq<Version>
    requires n <= |c.files|
  {
    if n == 0 then []
    else Due(c, recorded, n - 1) + if (c.files[n - 1] in recorded) == c.up then [] else [c.files[n - 1]]
  }

  function SqlOf(log: seq<Event>): seq<Event> {
    if log == [] then []
    else SqlOf(log[..|log| - 1]) + if log[|log| - 1].SqlRan? then [log[|log| - 1]] else []
  }

  function SqlBy(r: RunnerId, versions: seq<Version>): seq<Event> {
    seq(|versions|, i requires 0 <= i < |versions| => SqlRan(r, versions[i]))
  }

  /** From one history to a longer one, r alone ran the SQL of these versions, in this order. */
  ghost predicate RanExactly(before: seq<Event>, after: seq<Event>, r: RunnerId, versions: seq<Version>) {
    before <= after && SqlOf(after) == SqlOf(before) + SqlBy(r, versions)
  }

  lemma RanNothing(log: seq<Event>, r: RunnerId)
    ensures RanExactly(log, log, r, [])
  {
  }

  lemma RanOther(log: seq<Event>, e: Event, r: RunnerId)
    requires !e.SqlRan?
    ensures RanExactly(log, log + [e], r, [])
  {
    assert (log + [e])[..|log|] == log;
  }

  lemma RanOne(log: seq<Event>, r: RunnerId, v: Version)
    ensures RanExactly(log, log + [SqlRan(r, v)], r, [v])
  {
    assert (log + [SqlRan(r, v)])[..|log|] == log;
  }

  lemma RanBoth(a: seq<Event>, b: seq<Event>, d: seq<Event>, r: RunnerId, first: seq<Version>, second: seq<Version>)
    requires RanExactly(a, b, r, first) && RanExactly(b, d, r, second)
    ensures RanExactly(a, d, r, first + second)
  {
    assert SqlBy(r, first + second) == SqlBy(r, first) + SqlBy(r, second);
  }

  /** Only records of the first n files have changed. */
  ghost predicate RestAsBefore(c: Config, before: seq<Version>, now: seq<Version>, n: nat) {
    forall j :: n <= j < |c.files| ==> (c.files[j] in now <==> c.files[j] in before)
  }
}
