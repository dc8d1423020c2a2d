/**
 * runMigrations of core/cmd/migrate/main.go as the loop it is, over a database whose state it changes
 * statement by statement.  Every call is one path of the step relation of module Migrate.
 */
module MigrateRunner {
  import opened Common
  import opened Migrate
  import opened MigrateHistory

  /** How the database answers the statement issued in a phase. */
  datatype Outcome = Fine | Failed(applied: bool)

  class Database {
    var recorded: seq<Version>
    var created: bool
    var holder: Option<RunnerId>
    var log: seq<Event>

    /** The state in which r, alone, is in phase p. */
    ghost function View(r: RunnerId, p: Phase): State
      reads this
    {
      State(recorded, created, holder, map[r := p], log)
    }

    /** The SQL of file i. */
    method Execute(c: Config, r: RunnerId, i: nat, outcome: Phase -> Outcome) returns (ok: bool, ghost step: Step)
      requires i < |c.files| && holder == Some(r)
      modifies this`log
      ensures Arrives(c, old(View(r, Executing(i))), step, View(r, if ok then Recording(i) else Unlocking(false)))
      ensures ok == outcome(Executing(i)).Fine?
      ensures step == if ok then Advance(r) else Fail(r, outcome(Executing(i)).applied)
      ensures RanExactly(old(log), log, r, if outcome(Executing(i)) == Failed(false) then [] else [c.files[i]])
    {
      RanOne(log, r, c.files[i]);
      RanNothing(log, r);
      var executing := outcome(Executing(i));
      ok, step := executing.Fine?, if executing.Fine? then Advance(r) else Fail(r, executing.applied);
      if executing.Fine? || executing.applied {
        log := log + [SqlRan(r, c.files[i])];
      }
    }

    /** The insert or delete of file i's version. */
    method Record(c: Config, r: RunnerId, i: nat, outcome: Phase -> Outcome) returns (ok: bool, ghost step: Step)
      requires i < |c.files| && holder == Some(r) && !Settled(c, recorded, c.files[i])
      modifies this`recorded, this`log
      ensures Arrives(c, old(View(r, Recording(i))), step, View(r, if ok then Checking(i + 1) else Unlocking(false)))
      ensures ok == outcome(Recording(i)).Fine?
      ensures step == if ok then Advance(r) else Fail(r, outcome(Recording(i)).applied)
      ensures RanExactly(old(log), log, r, [])
      ensures forall x :: x != c.files[i] ==> (x in recorded <==> x in old(recorded))
    {
      WithoutMembers(recorded, c.files[i]);
      RanOther(log, Recorded(r, c.files[i]), r);
      RanNothing(log, r);
      var recording := outcome(Recording(i));
      ok, step := recording.Fine?, if recording.Fine? then Advance(r) else Fail(r, recording.applied);
      if recording.Fine? || recording.applied {
        if c.up {
          recorded, log := recorded + [c.files[i]], log + [Recorded(r, c.files[i])];
        } else {
          recorded := Without(recorded, c.files[i]);
        }
      }
    }

    /** The SQL of file i, then its record. */
    method ExecuteAndRecord(c: Config, r: RunnerId, i: nat, outcome: Phase -> Outcome) returns (ok: bool, ghost steps: seq<Step>)
      requires i < |c.files| && holder == Some(r) && !Settled(c, recorded, c.files[i])
      modifies this`recorded, this`log
      ensures Run(c, old(View(r, Executing(i))), steps) == Some(View(r, if ok then Checking(i + 1) else Unlocking(false)))
      ensures ok == (outcome(Executing(i)).Fine? && outcome(Recording(i)).Fine?)
      ensures RanExactly(old(log), log, r, if outcome(Executing(i)) == Failed(false) then [] else [c.files[i]])
      ensures forall x :: x != c.files[i] ==> (x in recorded <==> x in old(recorded))
    {
      ghost var start, before := View(r, Executing(i)), log;
      ghost var step;
      ok, step := Execute(c, r, i, outcome);
      steps := Took(c, start, [], start, View(r, if ok then Recording(i) else Unlocking(false)), step);
      if !ok {
        return;
      }
      ghost var executed, after := View(r, Recording(i)), log;
      ok, step := Record(c, r, i, outcome);
      RanBoth(before, after, log, r, [c.files[i]], []);
      steps := Took(c, start, steps, executed, View(r, if ok then Checking(i + 1) else Unlocking(false)), step);
    }

    /** Reading file i. */
    method ReadFile(c: Config, r: RunnerId, i: nat, outcome: Phase -> Outcome) returns (ok: bool, ghost step: Step)
      requires i < |c.files| && holder == Some(r)
      ensures Arrives(c, View(r, Reading(i)), step,
                      View(r, if !ok then Unlocking(false) else if HasHook(c, i) then Hooking(i) else Executing(i)))
      ensures ok == outcome(Reading(i)).Fine?
    {
      ok := outcome(Reading(i)).Fine?;
      step := if ok then Advance(r) else Fail(r, false);
    }

    /** The hook of file i. */
    method RunHook(c: Config, r: RunnerId, i: nat, outcome: Phase -> Outcome) returns (ok: bool, ghost step: Step)
      requires i < |c.files| && holder == Some(r)
      modifies this`log
      ensures Arrives(c, old(View(r, Hooking(i))), step, View(r, if ok then Executing(i) else Unlocking(false)))
      ensures ok == outcome(Hooking(i)).Fine?
      ensures RanExactly(old(log), log, r, [])
    {
      RanOther(log, HookRan(r, c.files[i]), r);
      RanNothing(log, r);
      ok := outcome(Hooking(i)).Fine?;
      if ok {
        log := log + [HookRan(r, c.files[i])];
      }
      step := if ok then Advance(r) else Fail(r, false);
    }

    /** Reading file i and running its hook, if it has one. */
    method ReadAndHook(c: Config, r: RunnerId, i: nat, outcome: Phase -> Outcome) returns (ok: bool, ghost steps: seq<Step>)
      requires i < |c.files| && holder == Some(r)
      modifies this`log
      ensures Run(c, old(View(r, Reading(i))), steps) == Some(View(r, if ok then Executing(i) else Unlocking(false)))
      ensures ok == (outcome(Reading(i)).Fine? && (HasHook(c, i) ==> outcome(Hooking(i)).Fine?))
      ensures RanExactly(old(log), log, r, [])
    {
      RanNothing(log, r);
      ghost var start := View(r, Reading(i));
      ghost var step;
      ok, step := ReadFile(c, r, i, outcome);
      ghost var next := if !ok then Unlocking(false) else if HasHook(c, i) then Hooking(i) else Executing(i);
      steps := Took(c, start, [], start, View(r, next), step);
      if ok && HasHook(c, i) {
        ghost var hooking := View(r, Hooking(i));
        ok, step := RunHook(c, r, i, outcome);
        steps := Took(c, start, steps, hooking, View(r, if ok then Executing(i) else Unlocking(false)), step);
      }
    }

    /** One turn of the loop: skip a settled version, otherwise read, hook, execute and record. */
    method ApplyFile(c: Config, r: RunnerId, i: nat, outcome: Phase -> Outcome) returns (ok: bool, ghost steps: seq<Step>)
      requires i < |c.files| && holder == Some(r)
      modifies this`recorded, this`log
      ensures Run(c, old(View(r, Checking(i))), steps) == Some(View(r, if ok then Checking(i + 1) else Unlocking(false)))
      ensures ok ==> outcome(Checking(i)).Fine?
      ensures (forall p :: outcome(p).Fine?) ==> ok
      ensures RanTurn(c, r, old(recorded), old(log), log, i, ok)
      ensures forall x :: x != c.files[i] ==> (x in recorded <==> x in old(recorded))
    {
      ghost var start, before := View(r, Checking(i)), log;
      RanNothing(log, r);
      if outcome(Checking(i)).Failed? {
        steps := Took(c, start, [], start, View(r, Unlocking(false)), Fail(r, false));
        return false, steps;
      }
      var recordedAlready := c.files[i] in recorded;
      if recordedAlready == c.up {
        steps := Took(c, start, [], start, View(r, Checking(i + 1)), Advance(r));
        return true, steps;
      }
      steps := Took(c, start, [], start, View(r, Reading(i)), Advance(r));
      ghost var next;
      ok, next := ReadAndHook(c, r, i, outcome);
      RunConcat(c, start, steps, next);
      steps := steps + next;
      if ok {
        ghost var hooked := log;
        ok, next := ExecuteAndRecord(c, r, i, outcome);
        RanBoth(before, hooked, log, r, [], if outcome(Executing(i)) == Failed(false) then [] else [c.files[i]]);
        RunConcat(c, start, steps, next);
        steps := steps + next;
      }
    }

    /** The bookkeeping table. */
    method CreateTable(c: Config, r: RunnerId, outcome: Phase -> Outcome) returns (ok: bool, ghost step: Step)
      requires holder == Some(r)
      modifies this`created
      ensures Arrives(c, old(View(r, Creating)), step, View(r, if ok then Checking(0) else Unlocking(false)))
      ensures ok == outcome(Creating).Fine?
    {
      var creating := outcome(Creating);
      ok, step := creating.Fine?, if creating.Fine? then Advance(r) else Fail(r, creating.applied);
      if creating.Fine? || creating.applied {
        created := true;
      }
    }

    /** Everything between taking the lock and the deferred unlock. */
    method ApplyAll(c: Config, r: RunnerId, outcome: Phase -> Outcome) returns (ok: bool, ghost steps: seq<Step>)
      requires holder == Some(r)
      modifies this`recorded, this`created, this`log
      ensures Run(c, old(View(r, Creating)), steps) == Some(View(r, Unlocking(ok)))
      ensures (forall p :: outcome(p).Fine?) ==> ok
      ensures RanAllIfDistinct(c, r, old(recorded), old(log), log, ok)
    {
      ghost var start := View(r, Creating);
      NoneRan(c, r, recorded, log);
      ghost var step;
      ok, step := CreateTable(c, r, outcome);
      steps := Took(c, start, [], start, View(r, if ok then Checking(0) else Unlocking(false)), step);
      if ok {
        ghost var turns;
        ok, turns := ApplyFiles(c, r, outcome);
        RunConcat(c, start, steps, turns);
        steps := steps + turns;
      }
    }

    /** The loop over the files. */
    method ApplyFiles(c: Config, r: RunnerId, outcome: Phase -> Outcome) returns (ok: bool, ghost steps: seq<Step>)
      requires holder == Some(r)
      modifies this`recorded, this`log
      ensures Run(c, old(View(r, Checking(0))), steps) == Some(View(r, Unlocking(ok)))
      ensures (forall p :: outcome(p).Fine?) ==> ok
      ensures RanAllIfDistinct(c, r, old(recorded), old(log), log, ok)
    {
      ghost var start, before, init := View(r, Checking(0)), log, recorded;
      NoneRan(c, r, init, before);
      steps := [];
      var i := 0;
      while i < |c.files|
        invariant i <= |c.files|
        invariant Run(c, start, steps) == Some(View(r, Checking(i)))
        invariant Reached(c, r, init, before, recorded, log, i)
      {
        ok, steps := ApplyNext(c, r, i, outcome, start, steps, init, before);
        if !ok {
          return;
        }
        i := i + 1;
      }
      AllRan(c, r, init, before, recorded, log);
      steps := Took(c, start, steps, View(r, Checking(i)), View(r, Unlocking(true)), Advance(r));
      ok := true;
    }

    /** One turn, added to the path so far. */
    method ApplyNext(c: Config, r: RunnerId, i: nat, outcome: Phase -> Outcome, ghost start: State, ghost steps: seq<Step>,
                     ghost init: seq<Version>, ghost before: seq<Event>)
      returns (ok: bool, ghost more: seq<Step>)
      requires i < |c.files| && holder == Some(r)
      requires Run(c, start, steps) == Some(View(r, Checking(i))) && Reached(c, r, init, before, recorded, log, i)
      modifies this`recorded, this`log
      ensures Run(c, start, more) == Some(View(r, if ok then Checking(i + 1) else Unlocking(false)))
      ensures (forall p :: outcome(p).Fine?) ==> ok
      ensures if ok then Reached(c, r, init, before, recorded, log, i + 1)
              else RanAllIfDistinct(c, r, init, before, log, false)
    {
      ghost var turn, reached, records := [], log, recorded;
      ok, turn := ApplyFile(c, r, i, outcome);
      RunConcat(c, start, steps, turn);
      more := steps + turn;
      TurnAdds(c, r, init, before, records, reached, recorded, log, i, ok);
    }

    /** The deferred unlock, which may fail and leave the lock to the session's end. */
    method Unlock(c: Config, r: RunnerId, ok: bool, outcome: Phase -> Outcome) returns (ghost step: Step)
      requires holder == Some(r)
      modifies this`holder
      ensures Arrives(c, old(View(r, Unlocking(ok))), step, View(r, Returned(ok)))
      ensures outcome(Unlocking(ok)).Fine? ==> holder.None?
    {
      step := if outcome(Unlocking(ok)).Failed? then UnlockFail(r) else Advance(r);
      if outcome(Unlocking(ok)).Fine? {
        holder := None;
      }
    }

    /** One uninterleaved call: lock, apply, unlock on every way out. */
    method RunMigrations(c: Config, r: RunnerId, outcome: Phase -> Outcome) returns (ok: bool, ghost steps: seq<Step>)
      requires Distinct(c.files) && holder.None?
      modifies this
      ensures Run(c, old(View(r, Waiting)), steps) == Some(View(r, Returned(ok)))
      ensures ok ==> forall v :: v in c.files ==> (v in recorded <==> c.up)
      ensures forall v :: v !in c.files ==> (v in recorded <==> v in old(recorded))
      ensures (forall p :: outcome(p).Fine?) ==> ok && holder.None?
      ensures RanAll(c, r, old(recorded), old(log), log, ok)
    {
      ghost var start := View(r, Waiting);
      NoneRan(c, r, recorded, log);
      if outcome(Waiting).Failed? {
        steps := Took(c, start, [], start, View(r, Returned(false)), AcquireFail(r));
        ok := false;
      } else {
        holder := Some(r);
        steps := Took(c, start, [], start, View(r, Creating), Acquire(r));
        ghost var inner, step;
        ok, inner := ApplyAll(c, r, outcome);
        RunConcat(c, start, steps, inner);
        steps := steps + inner;
        ghost var unlocking := View(r, Unlocking(ok));
        step := Unlock(c, r, ok, outcome);
        steps := Took(c, start, steps, unlocking, View(r, Returned(ok)), step);
      }
      WhatReturnMeans(c, start, steps, r);
    }
  }

  /** A path from a single waiting runner to its return settles the table as the step relation promises. */
  lemma WhatReturnMeans(c: Config, start: State, steps: seq<Step>, r: RunnerId)
    requires Distinct(c.files) && start.phase == map[r := Waiting]
    requires Run(c, start, steps).Some? && r in Run(c, start, steps).value.phase
    ensures var t := Run(c, start, steps).value;
      && (t.phase[r] == Returned(true) ==> forall v :: v in c.files ==> (v in t.recorded <==> c.up))
      && (forall v :: v !in c.files ==> (v in t.recorded <==> v in start.recorded))
  {
    assert Inv(c, start.recorded, start);
    InvAlong(c, start.recorded, start, steps);
    var t := Run(c, start, steps).value;
    if t.phase[r] == Returned(true) {
      SuccessSettles(c, start.recorded, t, r);
    }
  }

  /** What one turn runs: the SQL of a version that has to change, and that for sure if the turn succeeds. */
  ghost predicate RanTurn(c: Config, r: RunnerId, init: seq<Version>, before: seq<Event>, after: seq<Event>, i: nat, ok: bool)
    requires i < |c.files|
  {
    if (c.files[i] in init) == c.up then RanExactly(before, after, r, [])
    else RanExactly(before, after, r, [c.files[i]]) || (!ok && RanExactly(before, after, r, []))
  }

  /** What a call runs: the SQL of the versions that have to change, in list order, all of them if it succeeds. */
  ghost predicate RanAll(c: Config, r: RunnerId, init: seq<Version>, before: seq<Event>, after: seq<Event>, ok: bool) {
    exists n :: 0 <= n <= |c.files| && (ok ==> n == |c.files|) && RanExactly(before, after, r, Due(c, init, n))
  }

  /** After i turns of the loop, all successful. */
  ghost predicate Reached(c: Config, r: RunnerId, init: seq<Version>, before: seq<Event>, now: seq<Version>,
                          log: seq<Event>, i: nat)
  {
    Distinct(c.files) && i <= |c.files| ==>
      RanExactly(before, log, r, Due(c, init, i)) && RestAsBefore(c, init, now, i)
  }

  ghost predicate RanAllIfDistinct(c: Config, r: RunnerId, init: seq<Version>, before: seq<Event>, after: seq<Event>, ok: bool) {
    Distinct(c.files) ==> RanAll(c, r, init, before, after, ok)
  }

  lemma NoneRan(c: Config, r: RunnerId, init: seq<Version>, log: seq<Event>)
    ensures Reached(c, r, init, log, init, log, 0) && RanAllIfDistinct(c, r, init, log, log, false)
  {
    RanNothing(log, r);
    StoppedAt(c, r, init, log, log, 0);
  }

  lemma AllRan(c: Config, r: RunnerId, init: seq<Version>, before: seq<Event>, now: seq<Version>, log: seq<Event>)
    requires Reached(c, r, init, before, now, log, |c.files|)
    ensures RanAllIfDistinct(c, r, init, before, log, true)
  {
    if Distinct(c.files) {
      StoppedAt(c, r, init, before, log, |c.files|);
    }
  }

  lemma TurnAdds(c: Config, r: RunnerId, init: seq<Version>, before: seq<Event>, records: seq<Version>, reached: seq<Event>,
                 now: seq<Version>, log: seq<Event>, i: nat, ok: bool)
    requires i < |c.files| && Reached(c, r, init, before, records, reached, i)
    requires RanTurn(c, r, records, reached, log, i, ok)
    requires forall x :: x != c.files[i] ==> (x in now <==> x in records)
    ensures ok ==> Reached(c, r, init, before, now, log, i + 1)
    ensures !ok ==> RanAllIfDistinct(c, r, init, before, log, false)
  {
    if Distinct(c.files) {
      assert c.files[i] in records <==> c.files[i] in init;
      var due := (c.files[i] in init) != c.up;
      var more := if !due || (!ok && RanExactly(reached, log, r, [])) then [] else [c.files[i]];
      RanBoth(before, reached, log, r, Due(c, init, i), more);
      assert Due(c, init, i) + [] == Due(c, init, i);
      var n := if due && more == [] then i else i + 1;
      assert Due(c, init, i) + more == Due(c, init, n);
      StoppedAt(c, r, init, before, log, n);
    }
  }

  lemma StoppedAt(c: Config, r: RunnerId, init: seq<Version>, before: seq<Event>, log: seq<Event>, n: nat)
    requires n <= |c.files| && RanExactly(before, log, r, Due(c, init, n))
    ensures RanAll(c, r, init, before, log, n == |c.files|) && RanAll(c, r, init, before, log, false)
  {
  }

  predicate HasHook(c: Config, i: nat) {
    c.up && i < |c.files| && c.files[i] in c.hooked
  }

  /** One step leads from s to t. */
  ghost predicate Arrives(c: Config, s: State, step: Step, t: State) {
    Next(c, s, step).Some?
    && var n := Next(c, s, step).value;
       n.recorded == t.recorded && n.created == t.created && n.holder == t.holder && n.log == t.log && n.phase == t.phase
  }

  /** Extends a path by one step. */
  ghost method Took(c: Config, start: State, steps: seq<Step>, from: State, to: State, step: Step) returns (more: seq<Step>)
    requires Run(c, start, steps) == Some(from) && Arrives(c, from, step, to)
    ensures more == steps + [step] && Run(c, start, more) == Some(to)
  {
    RunSnoc(c, start, steps, step);
    more := steps + [step];
  }
}
