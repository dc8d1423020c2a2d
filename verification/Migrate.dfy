/**
 * core/cmd/migrate/main.go: any number of migration runners share one bookkeeping table and one
 * session-level advisory lock, with no surrounding transaction.  Statements may fail, report a failure
 * although the database kept their effect, lose their session, or die with the process.
 */
module Migrate {
  import opened Common

  type Version = string
  type RunnerId = nat

  /** What every runner of one binary is started with: direction, ordered versions, versions with a hook. */
  datatype Config = Config(up: bool, files: seq<Version>, hooked: set<Version>)

  /** Where a runner is; `i` is the loop index of the file in hand. */
  datatype Phase =
    | Waiting                 // blocked in pg_advisory_lock
    | Creating                // about to create the bookkeeping table
    | Checking(i: nat)        // about to ask whether file i is recorded; past the end: leave the loop
    | Reading(i: nat)         // about to read the SQL file
    | Hooking(i: nat)         // about to run the pre-migration hook
    | Executing(i: nat)       // about to execute the SQL
    | Recording(i: nat)       // SQL executed, about to insert or delete the record
    | Unlocking(ok: bool)     // the deferred unlock
    | Severed(i: nat)         // in a hook, on the pool, after the pinned session died
    | Returned(ok: bool)
    | Exited

  datatype Event =
    | HookRan(who: RunnerId, version: Version)
    | SqlRan(who: RunnerId, version: Version)
    | Recorded(who: RunnerId, version: Version)

  datatype State = State(
    recorded: seq<Version>,
    created: bool,
    holder: Option<RunnerId>,
    phase: map<RunnerId, Phase>,
    log: seq<Event>)

  /** `applied`: the statement in flight took effect although the runner never learns it. */
  datatype Step =
    | Start(r: RunnerId)
    | Acquire(r: RunnerId)
    | AcquireFail(r: RunnerId)
    | Advance(r: RunnerId)
    | Fail(r: RunnerId, applied: bool)
    | UnlockFail(r: RunnerId)
    | DropSession(r: RunnerId, applied: bool)
    | SeveredHook(r: RunnerId, done: bool)
    | Crash(r: RunnerId, applied: bool)

  /** The phases in which a runner believes it holds the lock and its session is alive. */
  predicate Locked(p: Phase) {
    p.Creating? || p.Checking? || p.Reading? || p.Hooking? || p.Executing? || p.Recording? || p.Unlocking?
  }

  /** The version needs no work in this direction. */
  predicate Settled(c: Config, recorded: seq<Version>, v: Version) {
    if c.up then v in recorded else v !in recorded
  }

  function Move(s: State, r: RunnerId, p: Phase): State {
    s.(phase := s.phase[r := p])
  }

  function Release(s: State, r: RunnerId): State {
    if s.holder == Some(r) then s.(holder := None) else s
  }

  function RecordVersion(c: Config, s: State, r: RunnerId, v: Version): State {
    if Settled(c, s.recorded, v) then s
    else if c.up then s.(recorded := s.recorded + [v], log := s.log + [Recorded(r, v)])
    else s.(recorded := Without(s.recorded, v))
  }

  /** The database effect of the statement runner r has in flight. */
  function Effect(c: Config, s: State, r: RunnerId, p: Phase): State {
    match p
    case Creating => s.(created := true)
    case Executing(i) => if i < |c.files| then s.(log := s.log + [SqlRan(r, c.files[i])]) else s
    case Recording(i) => if i < |c.files| then RecordVersion(c, s, r, c.files[i]) else s
    case _ => s
  }

  /** The statement in hand succeeds. */
  function Succeed(c: Config, s: State, r: RunnerId, p: Phase): Option<State> {
    match p
    case Creating => Some(Move(Effect(c, s, r, p), r, Checking(0)))
    case Checking(i) =>
      Some(Move(s, r, if i >= |c.files| then Unlocking(true)
                      else if Settled(c, s.recorded, c.files[i]) then Checking(i + 1)
                      else Reading(i)))
    case Reading(i) =>
      Some(Move(s, r, if c.up && i < |c.files| && c.files[i] in c.hooked then Hooking(i) else Executing(i)))
    case Hooking(i) =>
      if i < |c.files| then Some(Move(s.(log := s.log + [HookRan(r, c.files[i])]), r, Executing(i))) else None
    case Executing(i) => Some(Move(Effect(c, s, r, p), r, Recording(i)))
    case Recording(i) =>   // the primary key refuses a second insert of one version
      if c.up && i < |c.files| && c.files[i] in s.recorded then None
      else Some(Move(Effect(c, s, r, p), r, Checking(i + 1)))
    case Unlocking(ok) => Some(Move(Release(s, r), r, Returned(ok)))
    case _ => None
  }

  /** One atomic step, or None when it is not enabled. */
  function Next(c: Config, s: State, step: Step): Option<State> {
    if step.Start? then
      if step.r in s.phase then None else Some(Move(s, step.r, Waiting))
    else if step.r !in s.phase then None
    else
      var r, p := step.r, s.phase[step.r];
      match step
      case Acquire(_) => if p.Waiting? && s.holder.None? then Some(Move(s.(holder := Some(r)), r, Creating)) else None
      case AcquireFail(_) => if p.Waiting? then Some(Move(s, r, Returned(false))) else None
      case Advance(_) => Succeed(c, s, r, p)
      case Fail(_, applied) =>
        if Locked(p) && !p.Unlocking? && !(p.Checking? && p.i >= |c.files|) then
          Some(Move(if applied then Effect(c, s, r, p) else s, r, Unlocking(false)))
        else None
      case UnlockFail(_) => if p.Unlocking? then Some(Move(s, r, Returned(p.ok))) else None
      case DropSession(_, applied) =>
        if !Locked(p) then None
        else Some(Move(Release(if applied then Effect(c, s, r, p) else s, r), r,
                       if p.Hooking? then Severed(p.i) else if p.Unlocking? then Returned(p.ok) else Returned(false)))
      case SeveredHook(_, done) =>
        if p.Severed? && p.i < |c.files| then
          Some(Move(if done then s.(log := s.log + [HookRan(r, c.files[p.i])]) else s, r, Returned(false)))
        else None
      case Crash(_, applied) =>
        if p.Exited? then None
        else Some(Move(Release(if applied && Locked(p) then Effect(c, s, r, p) else s, r), r, Exited))
  }

  /** The state after a whole interleaving, or None when some step was not enabled. */
  function Run(c: Config, s: State, steps: seq<Step>): Option<State> {
    if steps == [] then Some(s)
    else
      match Run(c, s, steps[..|steps| - 1])
      case None => None
      case Some(t) => Next(c, t, steps[|steps| - 1])
  }

  function Initial(init: seq<Version>, created: bool): State {
    State(init, created, None, map[], [])
  }

  // ---------------------------------------------------------------------------------------------
  // The invariant of every interleaving
  // ---------------------------------------------------------------------------------------------

  /** The listed versions not recorded at the start, in list order. */
  function Pending(files: seq<Version>, init: seq<Version>): seq<Version> {
    if files == [] then []
    else Pending(files[..|files| - 1], init) + (if files[|files| - 1] in init then [] else [files[|files| - 1]])
  }

  lemma {:induction false} PendingMembers(files: seq<Version>, init: seq<Version>)
    ensures forall v :: v in Pending(files, init) <==> v in files && v !in init
  {
    if files != [] {
      var front, last := files[..|files| - 1], files[|files| - 1];
      PendingMembers(front, init);
      assert files == front + [last];
    }
  }

  /** r's most recent event. */
  function LastOf(log: seq<Event>, r: RunnerId): Option<Event> {
    if log == [] then None
    else if log[|log| - 1].who == r then Some(log[|log| - 1])
    else LastOf(log[..|log| - 1], r)
  }

  function RecordedIn(log: seq<Event>): seq<Version> {
    if log == [] then []
    else RecordedIn(log[..|log| - 1]) + (if log[|log| - 1].Recorded? then [log[|log| - 1].version] else [])
  }

  ghost predicate AllSettled(c: Config, recorded: seq<Version>, n: nat)
    requires n <= |c.files|
  {
    forall j :: 0 <= j < n ==> Settled(c, recorded, c.files[j])
  }

  /** Event e may follow the history `before`. */
  ghost predicate EventOk(c: Config, init: seq<Version>, before: seq<Event>, e: Event) {
    match e
    case HookRan(r, v) => true
    case SqlRan(r, v) =>
      exists i :: 0 <= i < |c.files| && c.files[i] == v
        && Turn(c, init + RecordedIn(before), i)
        && (v in c.hooked ==> LastOf(before, r) == Some(HookRan(r, v)))
    case Recorded(r, v) => LastOf(before, r) == Some(SqlRan(r, v)) && v !in init + RecordedIn(before)
  }

  /** It is file i's turn: everything before it is recorded and it is not. */
  ghost predicate Turn(c: Config, recorded: seq<Version>, i: nat) {
    i < |c.files| && AllSettled(c, recorded, i) && !Settled(c, recorded, c.files[i])
  }

  ghost predicate LogOk(c: Config, init: seq<Version>, log: seq<Event>) {
    log == [] || (LogOk(c, init, log[..|log| - 1]) && EventOk(c, init, log[..|log| - 1], log[|log| - 1]))
  }

  ghost predicate PhaseOk(c: Config, s: State, r: RunnerId, p: Phase) {
    match p
    case Checking(i) => i <= |c.files| && AllSettled(c, s.recorded, i)
    case Reading(i) => Turn(c, s.recorded, i)
    case Hooking(i) => Turn(c, s.recorded, i)
    case Executing(i) =>
      Turn(c, s.recorded, i)
      && (c.up && c.files[i] in c.hooked ==> LastOf(s.log, r) == Some(HookRan(r, c.files[i])))
    case Recording(i) => Turn(c, s.recorded, i) && LastOf(s.log, r) == Some(SqlRan(r, c.files[i]))
    case Unlocking(ok) => ok ==> AllSettled(c, s.recorded, |c.files|)
    case Severed(i) => i < |c.files|
    case Returned(ok) => ok ==> AllSettled(c, s.recorded, |c.files|)
    case _ => true
  }

  ghost predicate Exclusive(s: State) {
    forall r :: r in s.phase && Locked(s.phase[r]) ==> s.holder == Some(r)
  }

  ghost predicate PrefixDone(c: Config, init: seq<Version>, recorded: seq<Version>) {
    exists n :: 0 <= n <= |c.files| && recorded == init + Pending(c.files[..n], init)
  }

  /** What holds in both directions. */
  ghost predicate Inv(c: Config, init: seq<Version>, s: State) {
    && Exclusive(s)
    && (forall r :: r in s.phase ==> PhaseOk(c, s, r, s.phase[r]))
    && (forall v :: v !in c.files ==> (v in s.recorded <==> v in init))
  }

  /** What holds of "up" runners besides. */
  ghost predicate UpInv(c: Config, init: seq<Version>, s: State) {
    && Inv(c, init, s)
    && PrefixDone(c, init, s.recorded)
    && s.recorded == init + RecordedIn(s.log)
    && LogOk(c, init, s.log)
  }

  /** A statement's effect touches at most the record of the file in hand and only r's own history. */
  lemma EffectFacts(c: Config, s: State, r: RunnerId, p: Phase)
    ensures var t := Effect(c, s, r, p);
      && t.phase == s.phase && t.holder == s.holder
      && (!p.Recording? ==> t.recorded == s.recorded)
      && (p.Recording? && p.i < |c.files| ==>
           && Settled(c, t.recorded, c.files[p.i])
           && (forall x :: x != c.files[p.i] ==> (x in t.recorded <==> x in s.recorded)))
      && (forall x :: Settled(c, s.recorded, x) ==> Settled(c, t.recorded, x))
      && (forall x :: x !in c.files ==> (x in t.recorded <==> x in s.recorded))
      && (forall q :: q != r ==> LastOf(t.log, q) == LastOf(s.log, q))
  {
    var t := Effect(c, s, r, p);
    if p.Recording? && p.i < |c.files| {
      WithoutMembers(s.recorded, c.files[p.i]);
    }
    if t.log != s.log {
      assert t.log[..|t.log| - 1] == s.log;
    }
  }

  /** The runner that moves is truthful about its new place. */
  lemma MoverOk(c: Config, s: State, r: RunnerId, p: Phase)
    requires Distinct(c.files) && PhaseOk(c, s, r, p) && Succeed(c, s, r, p).Some?
    ensures r in Succeed(c, s, r, p).value.phase
    ensures PhaseOk(c, Succeed(c, s, r, p).value, r, Succeed(c, s, r, p).value.phase[r])
  {
    match p
    case Checking(i) =>
      if i < |c.files| && Settled(c, s.recorded, c.files[i]) {
        OneMoreSettled(c, s.recorded, s.recorded, i);
      }
    case Hooking(i) =>
      Appended(s.log, HookRan(r, c.files[i]));
    case Executing(i) =>
      Appended(s.log, SqlRan(r, c.files[i]));
    case Recording(i) =>
      EffectFacts(c, s, r, p);
      OneMoreSettled(c, s.recorded, Effect(c, s, r, p).recorded, i);
    case _ =>
  }

  lemma Appended(log: seq<Event>, e: Event)
    ensures LastOf(log + [e], e.who) == Some(e)
  {
    assert (log + [e])[..|log|] == log;
  }

  /** What was settled stays so, and file i is now settled too. */
  lemma OneMoreSettled(c: Config, before: seq<Version>, after: seq<Version>, i: nat)
    requires i < |c.files| && AllSettled(c, before, i) && Settled(c, after, c.files[i])
    requires forall x :: Settled(c, before, x) ==> Settled(c, after, x)
    ensures AllSettled(c, after, i + 1)
  {
  }

  /** What a step does to everybody else: nothing, unless the mover holds the lock. */
  lemma StepFrame(c: Config, s: State, step: Step)
    requires Next(c, s, step).Some?
    ensures var t := Next(c, s, step).value;
      && t.phase.Keys == s.phase.Keys + {step.r}
      && (forall q :: q in s.phase && q != step.r ==> t.phase[q] == s.phase[q])
      && (forall q :: q != step.r ==> LastOf(t.log, q) == LastOf(s.log, q))
      && (forall x :: x !in c.files ==> (x in t.recorded <==> x in s.recorded))
      && (forall x :: Settled(c, s.recorded, x) ==> Settled(c, t.recorded, x))
      && (t.recorded != s.recorded ==> step.r in s.phase && Locked(s.phase[step.r]))
  {
    if !step.Start? {
      EffectFacts(c, s, step.r, s.phase[step.r]);
      LogFrame(c, s, step);
    }
  }

  /** Nobody else's history grows. */
  lemma LogFrame(c: Config, s: State, step: Step)
    requires !step.Start? && Next(c, s, step).Some?
    ensures forall q :: q != step.r ==> LastOf(Next(c, s, step).value.log, q) == LastOf(s.log, q)
  {
    var e := LogStep(c, s, step);
    OthersHistory(s.log, e);
  }

  /** A step adds one event of the mover at most. */
  lemma LogStep(c: Config, s: State, step: Step) returns (e: Event)
    requires !step.Start? && Next(c, s, step).Some?
    ensures e.who == step.r && (Next(c, s, step).value.log == s.log || Next(c, s, step).value.log == s.log + [e])
  {
    var t := Next(c, s, step).value;
    e := if |t.log| > |s.log| then t.log[|s.log|] else SqlRan(step.r, "");
  }

  lemma OthersHistory(log: seq<Event>, e: Event)
    ensures forall q :: q != e.who ==> LastOf(log + [e], q) == LastOf(log, q)
  {
    assert (log + [e])[..|log|] == log;
  }

  /** The lock stays exclusive. */
  lemma StepKeepsExclusive(c: Config, s: State, step: Step)
    requires Exclusive(s) && Next(c, s, step).Some?
    ensures Exclusive(Next(c, s, step).value)
  {
    StepFrame(c, s, step);
    if !step.Start? {
      EffectFacts(c, s, step.r, s.phase[step.r]);
    }
  }

  /** In either direction every step keeps the lock exclusive and each runner's place truthful. */
  lemma StepKeepsInv(c: Config, init: seq<Version>, s: State, step: Step)
    requires Distinct(c.files)
    requires Inv(c, init, s) && Next(c, s, step).Some?
    ensures Inv(c, init, Next(c, s, step).value)
  {
    var t := Next(c, s, step).value;
    var r := step.r;
    StepFrame(c, s, step);
    StepKeepsExclusive(c, s, step);
    if step.Advance? {
      MoverOk(c, s, r, s.phase[r]);
    } else {
      assert PhaseOk(c, t, r, t.phase[r]);
    }
    forall q | q in t.phase ensures PhaseOk(c, t, q, t.phase[q]) {
      if q != r {
        assert PhaseOk(c, s, q, s.phase[q]);
        if t.recorded != s.recorded { assert !Locked(s.phase[q]); }
      }
    }
  }

  lemma LogGrows(c: Config, init: seq<Version>, log: seq<Event>, e: Event)
    requires LogOk(c, init, log) && EventOk(c, init, log, e)
    ensures LogOk(c, init, log + [e])
    ensures LastOf(log + [e], e.who) == Some(e)
    ensures RecordedIn(log + [e]) == RecordedIn(log) + if e.Recorded? then [e.version] else []
  {
    assert (log + [e])[..|log|] == log;
  }

  lemma PendingStep(files: seq<Version>, init: seq<Version>, i: nat)
    requires i < |files|
    ensures Pending(files[..i + 1], init) == Pending(files[..i], init) + if files[i] in init then [] else [files[i]]
  {
    assert files[..i + 1][..i] == files[..i];
  }

  /** Files already recorded add nothing to the pending list. */
  lemma PendingStretch(c: Config, init: seq<Version>, n: nat, i: nat)
    requires c.up && Distinct(c.files) && n <= i <= |c.files|
    requires AllSettled(c, init + Pending(c.files[..n], init), i)
    ensures Pending(c.files[..i], init) == Pending(c.files[..n], init)
  {
    forall j | n <= j < i ensures c.files[j] in init {
      BeyondIsInitial(c, init, n, j);
    }
    InitialStretch(c.files, init, n, i);
  }

  lemma {:induction false} InitialStretch(files: seq<Version>, init: seq<Version>, n: nat, i: nat)
    requires n <= i <= |files| && forall j :: n <= j < i ==> files[j] in init
    ensures Pending(files[..i], init) == Pending(files[..n], init)
    decreases i
  {
    if n < i {
      InitialStretch(files, init, n, i - 1);
      PendingStep(files, init, i - 1);
    }
  }

  /** A settled file beyond the prefix was recorded from the start. */
  lemma BeyondIsInitial(c: Config, init: seq<Version>, n: nat, i: nat)
    requires c.up && Distinct(c.files) && n <= i < |c.files|
    requires Settled(c, init + Pending(c.files[..n], init), c.files[i])
    ensures c.files[i] in init
  {
    PendingMembers(c.files[..n], init);
    assert c.files[i] !in c.files[..n];
  }

  /** A file that is not recorded lies beyond the recorded prefix. */
  lemma TurnBound(c: Config, init: seq<Version>, n: nat, i: nat)
    requires c.up && n <= |c.files| && Turn(c, init + Pending(c.files[..n], init), i)
    ensures n <= i
  {
    PendingMembers(c.files[..n], init);
    assert forall j :: 0 <= j < n ==> c.files[j] in c.files[..n];
  }

  /** Recording the file whose turn it is extends the recorded prefix by exactly that file. */
  lemma TurnExtendsPrefix(c: Config, init: seq<Version>, recorded: seq<Version>, i: nat)
    requires c.up && Distinct(c.files)
    requires PrefixDone(c, init, recorded) && Turn(c, recorded, i)
    ensures PrefixDone(c, init, recorded + [c.files[i]])
  {
    var n :| 0 <= n <= |c.files| && recorded == init + Pending(c.files[..n], init);
    TurnBound(c, init, n, i);
    PendingStretch(c, init, n, i);
    PendingStep(c.files, init, i);
    TurnAppends(c, init, Pending(c.files[..i], init), recorded, i);
  }

  lemma TurnAppends(c: Config, init: seq<Version>, done: seq<Version>, recorded: seq<Version>, i: nat)
    requires i < |c.files| && recorded == init + done && c.up && !Settled(c, recorded, c.files[i])
    requires Pending(c.files[..i + 1], init) == done + (if c.files[i] in init then [] else [c.files[i]])
    ensures PrefixDone(c, init, recorded + [c.files[i]])
  {
    assert recorded + [c.files[i]] == init + (done + [c.files[i]]);
  }

  /** The event a step of an "up" runner adds is one the history allows; recording takes the file whose turn it is. */
  lemma StepEvent(c: Config, init: seq<Version>, s: State, step: Step) returns (e: Event, i: nat)
    requires c.up && UpInv(c, init, s) && Next(c, s, step).Some? && Next(c, s, step).value.log != s.log
    ensures Next(c, s, step).value.log == s.log + [e] && EventOk(c, init, s.log, e)
    ensures e.Recorded? ==>
      Turn(c, s.recorded, i) && Next(c, s, step).value.recorded == s.recorded + [e.version] && e.version == c.files[i]
    ensures !e.Recorded? ==> Next(c, s, step).value.recorded == s.recorded
  {
    var t := Next(c, s, step).value;
    var p := s.phase[step.r];
    e, i := t.log[|s.log|], if p.Executing? || p.Recording? then p.i else 0;
    assert PhaseOk(c, s, step.r, p);
    assert t.log == s.log + [e];
    if p.Executing? || p.Recording? {
      assert Turn(c, s.recorded, p.i);
    }
  }

  /** Every step of "up" runners keeps the whole invariant. */
  lemma StepKeepsUpInv(c: Config, init: seq<Version>, s: State, step: Step)
    requires c.up && Distinct(c.files)
    requires UpInv(c, init, s) && Next(c, s, step).Some?
    ensures UpInv(c, init, Next(c, s, step).value)
    ensures s.recorded <= Next(c, s, step).value.recorded && s.log <= Next(c, s, step).value.log
  {
    StepKeepsInv(c, init, s, step);
    if Next(c, s, step).value.log == s.log {
      QuietStep(c, s, step);
    } else {
      EventKeepsRecord(c, init, s, step);
    }
  }

  lemma EventKeepsRecord(c: Config, init: seq<Version>, s: State, step: Step)
    requires c.up && Distinct(c.files)
    requires UpInv(c, init, s) && Next(c, s, step).Some? && Next(c, s, step).value.log != s.log
    ensures var t := Next(c, s, step).value;
      && PrefixDone(c, init, t.recorded) && t.recorded == init + RecordedIn(t.log) && LogOk(c, init, t.log)
      && s.recorded <= t.recorded && s.log <= t.log
  {
    var e, i := StepEvent(c, init, s, step);
    LogGrows(c, init, s.log, e);
    if e.Recorded? {
      TurnExtendsPrefix(c, init, s.recorded, i);
    }
  }

  lemma QuietStep(c: Config, s: State, step: Step)
    requires c.up && Next(c, s, step).Some? && Next(c, s, step).value.log == s.log
    ensures Next(c, s, step).value.recorded == s.recorded
  {
  }

  lemma {:induction false} InvAlong(c: Config, init: seq<Version>, s: State, steps: seq<Step>)
    requires Distinct(c.files) && Inv(c, init, s)
    requires Run(c, s, steps).Some?
    ensures Inv(c, init, Run(c, s, steps).value)
  {
    if steps != [] {
      var front := steps[..|steps| - 1];
      InvAlong(c, init, s, front);
      StepKeepsInv(c, init, Run(c, s, front).value, steps[|steps| - 1]);
    }
  }

  lemma RunKeepsInv(c: Config, init: seq<Version>, created: bool, steps: seq<Step>)
    requires Distinct(c.files)
    requires Run(c, Initial(init, created), steps).Some?
    ensures Inv(c, init, Run(c, Initial(init, created), steps).value)
  {
    InvAlong(c, init, Initial(init, created), steps);
  }

  lemma {:induction false} RunKeepsUpInv(c: Config, init: seq<Version>, created: bool, steps: seq<Step>)
    requires c.up && Distinct(c.files)
    requires Run(c, Initial(init, created), steps).Some?
    ensures UpInv(c, init, Run(c, Initial(init, created), steps).value)
  {
    if steps == [] {
      assert c.files[..0] == [];
      assert init == init + Pending(c.files[..0], init);
    } else {
      var front := steps[..|steps| - 1];
      RunKeepsUpInv(c, init, created, front);
      StepKeepsUpInv(c, init, Run(c, Initial(init, created), front).value, steps[|steps| - 1]);
    }
  }

  // ---------------------------------------------------------------------------------------------
  // What holds of every interleaving
  // ---------------------------------------------------------------------------------------------

  lemma RunSnoc(c: Config, s: State, steps: seq<Step>, x: Step)
    ensures Run(c, s, steps + [x]) ==
            (match Run(c, s, steps) case None => None case Some(t) => Next(c, t, x))
  {
    assert (steps + [x])[..|steps|] == steps;
  }

  lemma {:induction false} RunConcat(c: Config, s: State, first: seq<Step>, then_: seq<Step>)
    requires Run(c, s, first).Some?
    ensures Run(c, s, first + then_) == Run(c, Run(c, s, first).value, then_)
  {
    if then_ == [] {
      assert first + then_ == first;
    } else {
      var front := then_[..|then_| - 1];
      RunConcat(c, s, first, front);
      assert (first + then_)[..|first + then_| - 1] == first + front;
    }
  }

  /** At most one runner is past the lock, in either direction. */
  lemma MutualExclusion(c: Config, init: seq<Version>, created: bool, steps: seq<Step>, r: RunnerId, q: RunnerId)
    requires Distinct(c.files) && Run(c, Initial(init, created), steps).Some?
    requires var s := Run(c, Initial(init, created), steps).value;
      r in s.phase && q in s.phase && Locked(s.phase[r]) && Locked(s.phase[q])
    ensures r == q
  {
    RunKeepsInv(c, init, created, steps);
  }

  /** The table is always the initial rows followed by a prefix of the pending files, and it only grows. */
  lemma {:induction false} RecordedIsGrowingPrefix(c: Config, init: seq<Version>, created: bool, steps: seq<Step>, k: nat)
    requires c.up && Distinct(c.files) && Run(c, Initial(init, created), steps).Some? && k <= |steps|
    ensures var end := Run(c, Initial(init, created), steps).value;
      && PrefixDone(c, init, end.recorded)
      && Run(c, Initial(init, created), steps[..k]).Some?
      && Run(c, Initial(init, created), steps[..k]).value.recorded <= end.recorded
      && Run(c, Initial(init, created), steps[..k]).value.log <= end.log
  {
    RunKeepsUpInv(c, init, created, steps);
    if k == |steps| {
      assert steps[..k] == steps;
    } else {
      var front := steps[..|steps| - 1];
      RecordedIsGrowingPrefix(c, init, created, front, k);
      assert front[..k] == steps[..k];
      RunKeepsUpInv(c, init, created, front);
      StepKeepsUpInv(c, init, Run(c, Initial(init, created), front).value, steps[|steps| - 1]);
    }
  }

  lemma {:induction false} LogAt(c: Config, init: seq<Version>, log: seq<Event>, q: nat)
    requires LogOk(c, init, log) && q < |log|
    ensures EventOk(c, init, log[..q], log[q])
    decreases |log|
  {
    if q < |log| - 1 {
      LogAt(c, init, log[..|log| - 1], q);
      assert log[..|log| - 1][..q] == log[..q];
    }
  }

  /**
   * A version's SQL runs only in list order, while the version is not recorded, and directly after the
   * same runner completed its hook.
   */
  lemma SqlRunsInTurn(c: Config, init: seq<Version>, created: bool, steps: seq<Step>, q: nat)
    requires c.up && Distinct(c.files) && Run(c, Initial(init, created), steps).Some?
    requires var log := Run(c, Initial(init, created), steps).value.log; q < |log| && log[q].SqlRan?
    ensures var log := Run(c, Initial(init, created), steps).value.log;
      && (exists i :: 0 <= i < |c.files| && c.files[i] == log[q].version
            && (forall j :: 0 <= j < i ==> c.files[j] in init + RecordedIn(log[..q])))
      && log[q].version !in init + RecordedIn(log[..q])
      && (log[q].version in c.hooked ==>
            LastOf(log[..q], log[q].who) == Some(HookRan(log[q].who, log[q].version)))
  {
    RunKeepsUpInv(c, init, created, steps);
    var log := Run(c, Initial(init, created), steps).value.log;
    LogAt(c, init, log, q);
    var i :| 0 <= i < |c.files| && c.files[i] == log[q].version && Turn(c, init + RecordedIn(log[..q]), i);
    assert forall j :: 0 <= j < i ==> Settled(c, init + RecordedIn(log[..q]), c.files[j]);
  }

  /** SQL that runs twice was not recorded by then: the earlier attempt failed or died before its insert. */
  lemma RerunMeansUnrecorded(c: Config, init: seq<Version>, created: bool, steps: seq<Step>, p: nat, q: nat)
    requires c.up && Distinct(c.files) && Run(c, Initial(init, created), steps).Some?
    requires var log := Run(c, Initial(init, created), steps).value.log;
      p < q < |log| && log[p].SqlRan? && log[q].SqlRan? && log[p].version == log[q].version
    ensures var log := Run(c, Initial(init, created), steps).value.log;
      forall k :: 0 <= k < q ==> !(log[k].Recorded? && log[k].version == log[p].version)
  {
    SqlRunsInTurn(c, init, created, steps, q);
    var log := Run(c, Initial(init, created), steps).value.log;
    forall k | 0 <= k < q && log[k].Recorded? ensures log[k].version in RecordedIn(log[..q]) {
      RecordedInHas(log[..q], k);
    }
  }

  lemma {:induction false} RecordedInHas(log: seq<Event>, k: nat)
    requires k < |log| && log[k].Recorded?
    ensures log[k].version in RecordedIn(log)
  {
    if k < |log| - 1 {
      RecordedInHas(log[..|log| - 1], k);
    }
  }

  /** A version is recorded at most once, and only by the runner that has just executed its SQL. */
  lemma RecordedAfterOwnSql(c: Config, init: seq<Version>, created: bool, steps: seq<Step>, q: nat)
    requires c.up && Distinct(c.files) && Run(c, Initial(init, created), steps).Some?
    requires var log := Run(c, Initial(init, created), steps).value.log; q < |log| && log[q].Recorded?
    ensures var log := Run(c, Initial(init, created), steps).value.log;
      && LastOf(log[..q], log[q].who) == Some(SqlRan(log[q].who, log[q].version))
      && log[q].version !in init
      && (forall k :: 0 <= k < q ==> !(log[k].Recorded? && log[k].version == log[q].version))
  {
    RunKeepsUpInv(c, init, created, steps);
    var log := Run(c, Initial(init, created), steps).value.log;
    LogAt(c, init, log, q);
    forall k | 0 <= k < q && log[k].Recorded? ensures log[k].version in RecordedIn(log[..q]) {
      RecordedInHas(log[..q], k);
    }
  }

  lemma SuccessSettles(c: Config, init: seq<Version>, s: State, r: RunnerId)
    requires Inv(c, init, s) && r in s.phase && s.phase[r] == Returned(true)
    ensures forall v :: v in c.files ==> (v in s.recorded <==> c.up)
    ensures forall v :: v !in c.files ==> (v in s.recorded <==> v in init)
  {
    assert PhaseOk(c, s, r, s.phase[r]);
    forall v | v in c.files ensures v in s.recorded <==> c.up {
      var j :| 0 <= j < |c.files| && c.files[j] == v;
      assert Settled(c, s.recorded, c.files[j]);
    }
  }

  /** A runner that returned success leaves every listed version recorded ("up") or unrecorded ("down"), for good. */
  lemma SuccessSettlesAll(c: Config, init: seq<Version>, created: bool, steps: seq<Step>, r: RunnerId)
    requires Distinct(c.files) && Run(c, Initial(init, created), steps).Some?
    requires var s := Run(c, Initial(init, created), steps).value; r in s.phase && s.phase[r] == Returned(true)
    ensures var s := Run(c, Initial(init, created), steps).value;
      && (forall v :: v in c.files ==> (v in s.recorded <==> c.up))
      && (forall v :: v !in c.files ==> (v in s.recorded <==> v in init))
  {
    RunKeepsInv(c, init, created, steps);
    SuccessSettles(c, init, Run(c, Initial(init, created), steps).value, r);
  }

  /** Rolling back what was rolled out gives the initial table without the listed versions. */
  lemma DownUndoesUp(up: Config, down: Config, init: seq<Version>, created: bool,
                     upSteps: seq<Step>, downSteps: seq<Step>, r: RunnerId, q: RunnerId)
    requires up.up && !down.up && Distinct(up.files) && Distinct(down.files)
    requires forall v :: v in up.files <==> v in down.files
    requires Run(up, Initial(init, created), upSteps).Some?
    requires var s := Run(up, Initial(init, created), upSteps).value;
      && r in s.phase && s.phase[r] == Returned(true)
      && Run(down, Initial(s.recorded, true), downSteps).Some?
      && (var t := Run(down, Initial(s.recorded, true), downSteps).value; q in t.phase && t.phase[q] == Returned(true))
    ensures var s := Run(up, Initial(init, created), upSteps).value;
      var t := Run(down, Initial(s.recorded, true), downSteps).value;
      && Elements(t.recorded) == Elements(init) - Elements(up.files)
      && (Elements(t.recorded) == Elements(init) <==> Elements(init) !! Elements(up.files))
  {
    SuccessSettlesAll(up, init, created, upSteps, r);
    SuccessSettlesAll(down, Run(up, Initial(init, created), upSteps).value.recorded, true, downSteps, q);
  }

  /** The insert of a reachable state never meets an existing row. */
  lemma InsertNeverCollides(c: Config, init: seq<Version>, created: bool, steps: seq<Step>, r: RunnerId)
    requires Distinct(c.files) && Run(c, Initial(init, created), steps).Some?
    requires var s := Run(c, Initial(init, created), steps).value; r in s.phase && s.phase[r].Recording?
    ensures Next(c, Run(c, Initial(init, created), steps).value, Advance(r)).Some?
  {
    RunKeepsInv(c, init, created, steps);
    var s := Run(c, Initial(init, created), steps).value;
    assert PhaseOk(c, s, r, s.phase[r]);
  }

  /** Only r moves, and nothing fails. */
  ghost predicate Undisturbed(steps: seq<Step>, r: RunnerId) {
    forall x :: x in steps ==> x in {Acquire(r), Advance(r)}
  }

  /** The undisturbed steps that take the lock holder r past file i. */
  lemma FinishFile(c: Config, init: seq<Version>, s: State, r: RunnerId, i: nat) returns (steps: seq<Step>, t: State)
    requires Distinct(c.files) && Inv(c, init, s)
    requires r in s.phase && i < |c.files| && s.phase[r] in {Reading(i), Hooking(i), Executing(i), Recording(i)}
    ensures Run(c, s, steps) == Some(t) && Inv(c, init, t) && t.phase == s.phase[r := Checking(i + 1)]
    ensures Undisturbed(steps, r)
    decreases match s.phase[r]
              case Reading(_) => 3
              case Hooking(_) => 2
              case Executing(_) => 1
              case _ => 0
  {
    assert PhaseOk(c, s, r, s.phase[r]);
    StepKeepsInv(c, init, s, Advance(r));
    RunSnoc(c, s, [], Advance(r));
    t := Next(c, s, Advance(r)).value;
    steps := [Advance(r)];
    if !s.phase[r].Recording? {
      var rest, u := FinishFile(c, init, t, r, i);
      RunConcat(c, s, steps, rest);
      steps, t := steps + rest, u;
    }
  }

  /** The undisturbed steps that take the lock holder r from loop index i to its return. */
  lemma {:induction false} FinishFrom(c: Config, init: seq<Version>, s: State, r: RunnerId, i: nat) returns (steps: seq<Step>)
    requires Distinct(c.files) && Inv(c, init, s)
    requires r in s.phase && s.phase[r] == Checking(i) && i <= |c.files|
    ensures Run(c, s, steps).Some?
    ensures Run(c, s, steps).value.phase == s.phase[r := Returned(true)]
    ensures Undisturbed(steps, r)
    decreases |c.files| - i
  {
    var t := Next(c, s, Advance(r)).value;
    StepKeepsInv(c, init, s, Advance(r));
    RunSnoc(c, s, [], Advance(r));
    steps := [Advance(r)];
    if i == |c.files| {
      RunSnoc(c, s, steps, Advance(r));
      return steps + [Advance(r)];
    }
    if t.phase[r].Reading? {
      var file, u := FinishFile(c, init, t, r, i);
      RunConcat(c, s, steps, file);
      steps, t := steps + file, u;
    }
    var rest := FinishFrom(c, init, t, r, i + 1);
    RunConcat(c, s, steps, rest);
    steps := steps + rest;
  }

  /**
   * No history of failures, lost sessions and crashes blocks the next runner: once the lock is free a waiting
   * runner that meets no further failure returns success.
   */
  lemma WaitingRunnerCanFinish(c: Config, init: seq<Version>, created: bool, steps: seq<Step>, r: RunnerId)
    requires Distinct(c.files) && Run(c, Initial(init, created), steps).Some?
    requires var s := Run(c, Initial(init, created), steps).value; s.holder.None? && r in s.phase && s.phase[r].Waiting?
    ensures exists more :: (
      var t := Run(c, Initial(init, created), steps + more);
      Undisturbed(more, r) && t.Some? && r in t.value.phase && t.value.phase[r] == Returned(true))
  {
    RunKeepsInv(c, init, created, steps);
    var s := Run(c, Initial(init, created), steps).value;
    StepKeepsInv(c, init, s, Acquire(r));
    var s1 := Next(c, s, Acquire(r)).value;
    StepKeepsInv(c, init, s1, Advance(r));
    var s2 := Next(c, s1, Advance(r)).value;
    RunSnoc(c, s, [], Acquire(r));
    RunSnoc(c, s, [Acquire(r)], Advance(r));
    var rest := FinishFrom(c, init, s2, r, 0);
    var entry := [Acquire(r)] + [Advance(r)];
    RunConcat(c, s, entry, rest);
    RunConcat(c, Initial(init, created), steps, entry + rest);
  }

  /** Anyone may come in at any time, and so whoever comes in while the lock is free can get through. */
  lemma NewRunnerCanFinish(c: Config, init: seq<Version>, created: bool, steps: seq<Step>, r: RunnerId)
    requires Distinct(c.files) && Run(c, Initial(init, created), steps).Some?
    requires var s := Run(c, Initial(init, created), steps).value; s.holder.None? && r !in s.phase
    ensures exists more :: (
      var t := Run(c, Initial(init, created), steps + [Start(r)] + more);
      Undisturbed(more, r) && t.Some? && r in t.value.phase && t.value.phase[r] == Returned(true))
  {
    RunSnoc(c, Initial(init, created), steps, Start(r));
    WaitingRunnerCanFinish(c, init, created, steps + [Start(r)], r);
  }
}
