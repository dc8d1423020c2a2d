/**
 * The double-checked readiness cache of core/cmd/server/health.go under any interleaving of concurrent
 * callers, a monotone clock and a changing schema_migrations table.
 */
module ReadinessCache {
  import opened Common
  import opened Readiness

  datatype Config = Config(required: seq<Version>, ttl: int)

  /** What a call was told: the computation it came from and the clock reading it was checked against. */
  datatype Answer = Answer(resp: Response, origin: nat, askedAt: int)

  datatype Phase =
    | Entered                      // about to read the clock
    | Peeking(now: int)            // first look into the cache
    | Queued                       // waiting for refreshMu
    | Inside                       // holds refreshMu, about to read the clock again
    | Rechecking(now: int)         // second look
    | Starting(now: int)           // missed twice, about to compute
    | Computing(run: nat)          // computation number `run` under way
    | Storing(run: nat)            // computed, about to store
    | Leaving(answer: Answer)      // about to unlock
    | Answered(answer: Answer)

  datatype Outcome = Outcome(ended: int, probe: Probe, snapshot: set<Version>)

  /** `reading` is the clock value the entry's expiry counts from, `began` the instant the work started. */
  datatype Computation = Computation(reading: int, began: int, outcome: Option<Outcome>)

  datatype Cached = Cached(resp: Response, expiresAt: int, origin: nat)

  datatype State = State(
    clock: int,
    table: set<Version>,
    mutex: Option<CallId>,
    cache: Option<Cached>,
    calls: map<CallId, Phase>,
    history: seq<Computation>)

  datatype Step =
    | Tick(elapsed: nat)
    | TableChange(table: set<Version>)
    | Call(id: CallId)
    | Advance(id: CallId)
    | Finish(id: CallId, probe: Probe)

  predicate InMutex(p: Phase) {
    p.Inside? || p.Rechecking? || p.Starting? || p.Computing? || p.Storing? || p.Leaving?
  }

  function Fresh(s: State, now: int): Option<Answer> {
    if s.cache.Some? && now < s.cache.value.expiresAt
    then Some(Answer(s.cache.value.resp, s.cache.value.origin, now))
    else None
  }

  function Goto(s: State, id: CallId, p: Phase): State {
    s.(calls := s.calls[id := p])
  }

  function Begin(s: State, id: CallId, reading: int): State {
    Goto(s.(history := s.history + [Computation(reading, s.clock, None)]), id, Computing(|s.history|))
  }

  function Move(c: Config, s: State, id: CallId, p: Phase): Option<State> {
    match p
    case Entered => Some(if c.ttl <= 0 then Begin(s, id, s.clock) else Goto(s, id, Peeking(s.clock)))
    case Peeking(now) =>
      Some(match Fresh(s, now) case Some(a) => Goto(s, id, Answered(a)) case None => Goto(s, id, Queued))
    case Queued => if s.mutex.None? then Some(Goto(s.(mutex := Some(id)), id, Inside)) else None
    case Inside => Some(Goto(s, id, Rechecking(s.clock)))
    case Rechecking(now) =>
      Some(match Fresh(s, now) case Some(a) => Goto(s, id, Leaving(a)) case None => Goto(s, id, Starting(now)))
    case Starting(now) => Some(Begin(s, id, now))
    case Storing(run) =>
      if run < |s.history| && s.history[run].outcome.Some? then
        var resp := ResponseOf(c, s.history[run]);
        Some(Goto(s.(cache := Some(Cached(resp, s.history[run].reading + c.ttl, run))), id,
                  Leaving(Answer(resp, run, s.history[run].reading))))
      else None
    case Leaving(a) => Some(Goto(s.(mutex := None), id, Answered(a)))
    case _ => None
  }

  function ResponseOf(c: Config, k: Computation): Response
    requires k.outcome.Some?
  {
    Compute(k.outcome.value.probe, k.outcome.value.snapshot, c.required)
  }

  function Next(c: Config, s: State, step: Step): Option<State> {
    match step
    case Tick(elapsed) => Some(s.(clock := s.clock + elapsed))
    case TableChange(table) => Some(s.(table := table))
    case Call(id) => if id in s.calls then None else Some(Goto(s, id, Entered))
    case Advance(id) => if id in s.calls then Move(c, s, id, s.calls[id]) else None
    case Finish(id, probe) =>
      if id in s.calls && s.calls[id].Computing? && s.calls[id].run < |s.history| then
        var run := s.calls[id].run;
        var done := s.history[run].(outcome := Some(Outcome(s.clock, probe, s.table)));
        var t := s.(history := s.history[run := done]);
        Some(Goto(t, id, if c.ttl <= 0 then Answered(Answer(ResponseOf(c, done), run, done.reading)) else Storing(run)))
      else None
  }

  function Run(c: Config, s: State, steps: seq<Step>): Option<State> {
    if steps == [] then Some(s)
    else
      match Run(c, s, steps[..|steps| - 1])
      case None => None
      case Some(t) => Next(c, t, steps[|steps| - 1])
  }

  function Initial(clock: int, table: set<Version>): State {
    State(clock, table, None, None, map[], [])
  }

  // ---------------------------------------------------------------------------------------------

  ghost predicate Done(s: State, run: nat) {
    run < |s.history| && s.history[run].outcome.Some?
  }

  /** The cache holds the newest computation before number `upTo`. */
  ghost predicate CacheIsNewest(c: Config, s: State, upTo: nat) {
    && upTo <= |s.history|
    && (s.cache.None? <==> upTo == 0)
    && (s.cache.Some? ==>
         && s.cache.value.origin == upTo - 1 && Done(s, upTo - 1)
         && s.cache.value.expiresAt == s.history[upTo - 1].reading + c.ttl
         && s.cache.value.resp == ResponseOf(c, s.history[upTo - 1]))
  }

  /** The earlier computation had ended before the later one read the clock, and the readings are a TTL apart. */
  ghost predicate Apart(c: Config, earlier: Computation, later: Computation) {
    && earlier.outcome.Some?
    && earlier.reading + c.ttl <= later.reading
    && earlier.outcome.value.ended <= later.reading
  }

  ghost predicate HistoryOk(c: Config, s: State) {
    && (forall k :: 0 <= k < |s.history| ==>
          var h := s.history[k];
          h.reading <= h.began <= s.clock
          && (h.outcome.Some? ==> h.began <= h.outcome.value.ended <= s.clock))
    && (forall j, k :: 0 <= j < k < |s.history| ==> Apart(c, s.history[j], s.history[k]))
  }

  ghost predicate AnswerOk(c: Config, s: State, a: Answer) {
    && Done(s, a.origin)
    && a.resp == ResponseOf(c, s.history[a.origin])
    && a.askedAt - s.history[a.origin].reading < c.ttl
  }

  ghost predicate AllDone(s: State) {
    |s.history| > 0 ==> Done(s, |s.history| - 1)
  }

  ghost predicate CallOk(c: Config, s: State, p: Phase) {
    match p
    case Peeking(now) => now <= s.clock
    case Rechecking(now) => AllEnded(s, now) && now <= s.clock && AllDone(s) && CacheIsNewest(c, s, |s.history|)
    case Inside => AllDone(s) && CacheIsNewest(c, s, |s.history|)
    case Starting(now) =>
      && AllEnded(s, now) && now <= s.clock && AllDone(s)
      && CacheIsNewest(c, s, |s.history|) && Fresh(s, now).None?
    case Computing(run) => run == |s.history| - 1 && !Done(s, run) && CacheIsNewest(c, s, run)
    case Storing(run) => run == |s.history| - 1 && Done(s, run) && CacheIsNewest(c, s, run)
    case Leaving(a) => AnswerOk(c, s, a) && AllDone(s) && CacheIsNewest(c, s, |s.history|)
    case Answered(a) => AnswerOk(c, s, a)
    case _ => true
  }

  /** Every computation so far had ended by the instant `now`. */
  ghost predicate AllEnded(s: State, now: int) {
    |s.history| > 0 ==> Done(s, |s.history| - 1) && s.history[|s.history| - 1].outcome.value.ended <= now
  }

  ghost predicate MutexOk(s: State) {
    && (forall id :: id in s.calls && InMutex(s.calls[id]) ==> s.mutex == Some(id))
    && (s.mutex.Some? ==> s.mutex.value in s.calls && InMutex(s.calls[s.mutex.value]))
  }

  ghost predicate CacheOk(c: Config, s: State) {
    && (s.mutex.None? ==> AllDone(s) && CacheIsNewest(c, s, |s.history|))
    && (s.cache.Some? ==> AnswerOk(c, s, Answer(s.cache.value.resp, s.cache.value.origin, s.cache.value.expiresAt - 1)))
  }

  ghost predicate Inv(c: Config, s: State) {
    && MutexOk(s)
    && HistoryOk(c, s)
    && CacheOk(c, s)
    && (forall id :: id in s.calls ==> CallOk(c, s, s.calls[id]))
  }

  /** A step leaves the history's finished entries alone and only ever adds to it. */
  ghost predicate Extends(s: State, t: State) {
    && |s.history| <= |t.history|
    && s.clock <= t.clock
    && (forall k {:trigger t.history[k]} :: 0 <= k < |s.history| ==>
          && t.history[k].reading == s.history[k].reading && t.history[k].began == s.history[k].began
          && (Done(s, k) ==> t.history[k] == s.history[k]))
  }

  lemma StepExtends(c: Config, s: State, step: Step)
    requires Inv(c, s) && c.ttl > 0 && Next(c, s, step).Some?
    ensures Extends(s, Next(c, s, step).value)
  {
    if step.Finish? {
      assert CallOk(c, s, s.calls[step.id]);
    }
  }

  lemma StepKeepsMutex(c: Config, s: State, step: Step)
    requires c.ttl > 0 && MutexOk(s) && Next(c, s, step).Some?
    ensures MutexOk(Next(c, s, step).value)
  {
  }

  /** What the others see: only the mutex holder touches history and cache. */
  lemma StepFrame(c: Config, s: State, step: Step)
    requires c.ttl > 0 && Next(c, s, step).Some?
    ensures var t := Next(c, s, step).value;
      && (forall q :: q in t.calls && !(step.Call? || step.Advance? || step.Finish?) ==> q in s.calls && t.calls[q] == s.calls[q])
      && (step.Call? || step.Advance? || step.Finish? ==>
            forall q :: q in t.calls && q != step.id ==> q in s.calls && t.calls[q] == s.calls[q])
      && (t.history != s.history || t.cache != s.cache ==>
            (step.Advance? || step.Finish?) && step.id in s.calls && InMutex(s.calls[step.id]))
  {
  }

  lemma OtherStays(c: Config, s: State, t: State, p: Phase)
    requires CallOk(c, s, p) && Extends(s, t)
    requires InMutex(p) ==> t.history == s.history && t.cache == s.cache
    ensures CallOk(c, t, p)
  {
  }

  lemma BeginKeeps(c: Config, s: State, id: CallId)
    requires c.ttl > 0 && Inv(c, s) && id in s.calls && s.calls[id].Starting?
    ensures var t := Begin(s, id, s.calls[id].now);
      HistoryOk(c, t) && CacheOk(c, t) && CallOk(c, t, t.calls[id])
  {
    var now := s.calls[id].now;
    assert CallOk(c, s, Starting(now));
    var t := Begin(s, id, now);
    assert forall k :: 0 <= k < |s.history| ==> t.history[k] == s.history[k];
    assert CacheIsNewest(c, t, |s.history|);
    forall j, k | 0 <= j < k < |t.history| ensures Apart(c, t.history[j], t.history[k]) {
      if k == |s.history| && j < k - 1 {
        assert Apart(c, s.history[j], s.history[k - 1]);
      }
    }
  }

  lemma FinishKeeps(c: Config, s: State, step: Step)
    requires c.ttl > 0 && Inv(c, s) && step.Finish? && Next(c, s, step).Some?
    ensures var t := Next(c, s, step).value;
      HistoryOk(c, t) && CacheOk(c, t) && CallOk(c, t, t.calls[step.id])
  {
    var t := Next(c, s, step).value;
    var run := s.calls[step.id].run;
    assert CallOk(c, s, s.calls[step.id]);
    assert forall k :: 0 <= k < |s.history| && k != run ==> t.history[k] == s.history[k];
    assert CacheIsNewest(c, t, run);
    forall j, k | 0 <= j < k < |t.history| ensures Apart(c, t.history[j], t.history[k]) {
      assert Apart(c, s.history[j], s.history[k]);
    }
  }

  lemma QuietKeeps(c: Config, s: State, t: State)
    requires HistoryOk(c, s) && CacheOk(c, s) && t.history == s.history && t.cache == s.cache && s.clock <= t.clock
    requires t.mutex.None? ==> s.mutex.None? || (AllDone(s) && CacheIsNewest(c, s, |s.history|))
    ensures HistoryOk(c, t) && CacheOk(c, t)
  {
  }

  lemma StoreKeeps(c: Config, s: State, id: CallId)
    requires c.ttl > 0 && Inv(c, s) && id in s.calls && s.calls[id].Storing? && Move(c, s, id, s.calls[id]).Some?
    ensures var t := Move(c, s, id, s.calls[id]).value;
      HistoryOk(c, t) && CacheOk(c, t) && CallOk(c, t, t.calls[id])
  {
    var t := Move(c, s, id, s.calls[id]).value;
    assert CallOk(c, s, s.calls[id]);
    assert CacheIsNewest(c, t, |t.history|);
  }

  /** A call that neither computes nor stores. */
  lemma PassKeeps(c: Config, s: State, id: CallId)
    requires c.ttl > 0 && Inv(c, s) && id in s.calls && !s.calls[id].Storing? && !s.calls[id].Starting?
    requires Move(c, s, id, s.calls[id]).Some?
    ensures var t := Move(c, s, id, s.calls[id]).value;
      && t.history == s.history && t.cache == s.cache && t.clock == s.clock
      && (t.mutex.None? ==> s.mutex.None? || (AllDone(s) && CacheIsNewest(c, s, |s.history|)))
      && CallOk(c, t, t.calls[id])
  {
    assert CallOk(c, s, s.calls[id]);
  }

  lemma AdvanceKeeps(c: Config, s: State, id: CallId)
    requires c.ttl > 0 && Inv(c, s) && id in s.calls && Move(c, s, id, s.calls[id]).Some?
    ensures var t := Move(c, s, id, s.calls[id]).value;
      HistoryOk(c, t) && CacheOk(c, t) && CallOk(c, t, t.calls[id])
  {
    if s.calls[id].Starting? {
      BeginKeeps(c, s, id);
    } else if s.calls[id].Storing? {
      StoreKeeps(c, s, id);
    } else {
      PassKeeps(c, s, id);
      QuietKeeps(c, s, Move(c, s, id, s.calls[id]).value);
    }
  }

  /** With a positive TTL every step of every caller keeps the invariant. */
  lemma StepKeepsInv(c: Config, s: State, step: Step)
    requires c.ttl > 0 && Inv(c, s) && Next(c, s, step).Some?
    ensures Inv(c, Next(c, s, step).value)
  {
    var t := Next(c, s, step).value;
    StepExtends(c, s, step);
    StepKeepsMutex(c, s, step);
    StepFrame(c, s, step);
    if step.Advance? {
      AdvanceKeeps(c, s, step.id);
    } else if step.Finish? {
      FinishKeeps(c, s, step);
    } else {
      QuietKeeps(c, s, t);
    }
    forall q | q in t.calls ensures CallOk(c, t, t.calls[q]) {
      if q in s.calls && t.calls[q] == s.calls[q] && !((step.Advance? || step.Finish?) && q == step.id) {
        OtherStays(c, s, t, s.calls[q]);
      }
    }
  }

  lemma {:induction false} RunKeepsInv(c: Config, clock: int, table: set<Version>, steps: seq<Step>)
    requires c.ttl > 0 && Run(c, Initial(clock, table), steps).Some?
    ensures Inv(c, Run(c, Initial(clock, table), steps).value)
  {
    if steps != [] {
      var front := steps[..|steps| - 1];
      RunKeepsInv(c, clock, table, front);
      StepKeepsInv(c, Run(c, Initial(clock, table), front).value, steps[|steps| - 1]);
    }
  }

  // ---------------------------------------------------------------------------------------------
  // What holds of every interleaving
  // ---------------------------------------------------------------------------------------------

  /** Two calls never compute at once, and computations follow one another without overlap, a TTL apart by their clock readings. */
  lemma ComputationsNeverOverlap(c: Config, clock: int, table: set<Version>, steps: seq<Step>)
    requires c.ttl > 0 && Run(c, Initial(clock, table), steps).Some?
    ensures var s := Run(c, Initial(clock, table), steps).value;
      && (forall a, b :: a in s.calls && b in s.calls && s.calls[a].Computing? && s.calls[b].Computing? ==> a == b)
      && (forall j, k :: 0 <= j < k < |s.history| ==>
            && s.history[j].outcome.Some?
            && s.history[j].outcome.value.ended <= s.history[k].began
            && s.history[k].reading - s.history[j].reading >= c.ttl)
  {
    RunKeepsInv(c, clock, table, steps);
    var s := Run(c, Initial(clock, table), steps).value;
    forall j, k | 0 <= j < k < |s.history|
      ensures s.history[j].outcome.Some? && s.history[j].outcome.value.ended <= s.history[k].began
      ensures s.history[k].reading - s.history[j].reading >= c.ttl
    {
      assert Apart(c, s.history[j], s.history[k]);
    }
  }

  /**
   * Whatever a call answers was computed from the table as it stood during a finished computation whose clock
   * reading is less than the TTL before the caller's; "ok" means that table held every required version.
   */
  lemma AnswersAreFresh(c: Config, clock: int, table: set<Version>, steps: seq<Step>, id: CallId)
    requires c.ttl > 0 && Run(c, Initial(clock, table), steps).Some?
    requires var s := Run(c, Initial(clock, table), steps).value; id in s.calls && s.calls[id].Answered?
    ensures var s := Run(c, Initial(clock, table), steps).value;
      var a := s.calls[id].answer;
      && a.origin < |s.history| && s.history[a.origin].outcome.Some?
      && a.resp == ResponseOf(c, s.history[a.origin])
      && a.askedAt < s.history[a.origin].reading + c.ttl
      && (a.resp.code == OK ==>
            forall v :: v in c.required ==> v in s.history[a.origin].outcome.value.snapshot)
  {
    RunKeepsInv(c, clock, table, steps);
    var s := Run(c, Initial(clock, table), steps).value;
    assert CallOk(c, s, s.calls[id]);
    var o := s.history[s.calls[id].answer.origin].outcome.value;
    OkExactly(o.probe, o.snapshot, c.required);
  }

  /** While migrations are only added, an "ok" handed out from the cache is still true when it is handed out. */
  lemma CachedOkStaysTrue(c: Config, clock: int, table: set<Version>, steps: seq<Step>, id: CallId)
    requires c.ttl > 0 && Run(c, Initial(clock, table), steps).Some?
    requires OnlyAdds(c, clock, table, steps)
    requires var s := Run(c, Initial(clock, table), steps).value;
      id in s.calls && s.calls[id].Answered? && s.calls[id].answer.resp.code == OK
    ensures forall v :: v in c.required ==> v in Run(c, Initial(clock, table), steps).value.table
  {
    AnswersAreFresh(c, clock, table, steps, id);
    SnapshotsStayBelow(c, clock, table, steps);
  }

  ghost predicate OnlyAdds(c: Config, clock: int, table: set<Version>, steps: seq<Step>)
    requires Run(c, Initial(clock, table), steps).Some?
  {
    steps == [] || (
      var front := steps[..|steps| - 1];
      && OnlyAdds(c, clock, table, front)
      && Run(c, Initial(clock, table), front).value.table <= Run(c, Initial(clock, table), steps).value.table)
  }

  lemma {:induction false} SnapshotsStayBelow(c: Config, clock: int, table: set<Version>, steps: seq<Step>)
    requires Run(c, Initial(clock, table), steps).Some? && OnlyAdds(c, clock, table, steps)
    ensures var s := Run(c, Initial(clock, table), steps).value;
      forall k :: 0 <= k < |s.history| && s.history[k].outcome.Some? ==> s.history[k].outcome.value.snapshot <= s.table
  {
    if steps != [] {
      SnapshotsStayBelow(c, clock, table, steps[..|steps| - 1]);
    }
  }

  /** The mutual exclusion is the cache's doing: with the cache switched off two calls compute at once. */
  lemma WithoutTtlComputationsOverlap(c: Config, clock: int, table: set<Version>)
    requires c.ttl <= 0
    ensures exists steps :: (
      var s := Run(c, Initial(clock, table), steps);
      s.Some? && 0 in s.value.calls && 1 in s.value.calls && s.value.calls[0].Computing? && s.value.calls[1].Computing?)
  {
    var i := Initial(clock, table);
    var s0 := [Call(0)];
    var s1 := s0 + [Call(1)];
    var s2 := s1 + [Advance(0)];
    var s3 := s2 + [Advance(1)];
    assert s0[..0] == [] && s1[..1] == s0 && s2[..2] == s1 && s3[..3] == s2;
    assert Run(c, i, s0) == Some(Goto(i, 0, Entered));
    assert Run(c, i, s1).Some? && Run(c, i, s2).Some?;
    assert Run(c, i, s3).Some?;
  }

  /** No call waits, holds the mutex or is about to store, and nothing is cached. */
  ghost predicate Uncached(s: State) {
    s.cache.None? && s.mutex.None? &&
    forall id :: id in s.calls ==> s.calls[id].Entered? || s.calls[id].Computing? || s.calls[id].Answered?
  }

  /** With the cache switched off it is left alone, and so is the mutex. */
  lemma {:induction false} NothingIsCachedWithoutTtl(c: Config, clock: int, table: set<Version>, steps: seq<Step>)
    requires c.ttl <= 0 && Run(c, Initial(clock, table), steps).Some?
    ensures Uncached(Run(c, Initial(clock, table), steps).value)
  {
    if steps != [] {
      NothingIsCachedWithoutTtl(c, clock, table, steps[..|steps| - 1]);
      StaysUncached(c, Run(c, Initial(clock, table), steps[..|steps| - 1]).value, steps[|steps| - 1]);
    }
  }

  lemma StaysUncached(c: Config, s: State, step: Step)
    requires c.ttl <= 0 && Uncached(s) && Next(c, s, step).Some?
    ensures Uncached(Next(c, s, step).value)
  {
  }

  lemma RunSnoc(c: Config, s: State, steps: seq<Step>, x: Step)
    ensures Run(c, s, steps + [x]) ==
            (match Run(c, s, steps) case None => None case Some(t) => Next(c, t, x))
  {
    assert (steps + [x])[..|steps|] == steps;
  }

  /** A new call that misses twice, alone: it ends up about to compute, its reading the present clock. */
  lemma MissTwice(c: Config, s: State, path: seq<Step>, t: State, id: CallId) returns (more: seq<Step>, u: State)
    requires c.ttl > 0 && Run(c, s, path) == Some(t)
    requires id !in t.calls && t.mutex.None? && Fresh(t, t.clock).None?
    ensures Run(c, s, more) == Some(u)
    ensures id in u.calls && u.calls[id] == Starting(t.clock)
    ensures u == t.(calls := u.calls, mutex := Some(id)) && u.calls.Keys == t.calls.Keys + {id}
  {
    more, u := path, t;
    var at := 0;
    while at < 6
      invariant 0 <= at <= 6
      invariant Run(c, s, more) == Some(u)
      invariant at == 0 ==> u == t
      invariant at > 0 ==> u.calls.Keys == t.calls.Keys + {id}
      invariant at > 0 ==>
        u.calls[id] == [Entered, Peeking(t.clock), Queued, Inside, Rechecking(t.clock), Starting(t.clock)][at - 1]
      invariant u == t.(calls := u.calls, mutex := if at < 4 then None else Some(id))
    {
      var step := if at == 0 then Call(id) else Advance(id);
      RunSnoc(c, s, more, step);
      more, u, at := more + [step], Next(c, u, step).value, at + 1;
    }
  }

  /** A call about to compute does so alone, stores and leaves. */
  lemma ComputeAlone(c: Config, s: State, path: seq<Step>, t: State, id: CallId) returns (more: seq<Step>, u: State)
    requires c.ttl > 0 && Run(c, s, path) == Some(t)
    requires id in t.calls && t.calls[id].Starting? && t.mutex == Some(id)
    ensures Run(c, s, more) == Some(u)
    ensures u.clock == t.clock && u.mutex.None? && u.calls.Keys == t.calls.Keys
    ensures |u.history| == |t.history| + 1 && u.history[..|t.history|] == t.history
    ensures u.history[|t.history|].reading == t.calls[id].now && u.history[|t.history|].began == t.clock
    ensures u.cache.Some? && u.cache.value.expiresAt == t.calls[id].now + c.ttl
  {
    var probe := Probe(true, true, false, true);
    var begun := Next(c, t, Advance(id)).value;
    var ended := Next(c, begun, Finish(id, probe)).value;
    var stored := Next(c, ended, Advance(id)).value;
    u := Next(c, stored, Advance(id)).value;
    RunSnoc(c, s, path, Advance(id));
    RunSnoc(c, s, path + [Advance(id)], Finish(id, probe));
    RunSnoc(c, s, path + [Advance(id)] + [Finish(id, probe)], Advance(id));
    RunSnoc(c, s, path + [Advance(id)] + [Finish(id, probe)] + [Advance(id)], Advance(id));
    more := path + [Advance(id)] + [Finish(id, probe)] + [Advance(id)] + [Advance(id)];
  }

  /** How long after its clock reading a computation's work starts. */
  function Delay(h: Computation): int {
    h.began - h.reading
  }

  /** The TTL separates clock readings; the work of a later computation starts a TTL after that of an earlier one, less
      the earlier one's delay. */
  lemma StartsApartLessDelay(c: Config, clock: int, table: set<Version>, steps: seq<Step>)
    requires c.ttl > 0 && Run(c, Initial(clock, table), steps).Some?
    ensures var h := Run(c, Initial(clock, table), steps).value.history;
      forall j, k :: 0 <= j < k < |h| ==> h[k].began - h[j].began >= c.ttl - Delay(h[j])
    ensures var h := Run(c, Initial(clock, table), steps).value.history;
      forall k :: 0 <= k < |h| ==> Delay(h[k]) >= 0
  {
    RunKeepsInv(c, clock, table, steps);
    var h := Run(c, Initial(clock, table), steps).value.history;
    forall j, k | 0 <= j < k < |h| ensures h[k].began - h[j].began >= c.ttl - Delay(h[j]) {
      assert Apart(c, h[j], h[k]);
    }
  }

  /** Two computations, the first delayed by d, whose starts are exactly this far apart. */
  ghost predicate TwoStarts(c: Config, table: set<Version>, steps: seq<Step>, d: int, gap: int) {
    var s := Run(c, Initial(0, table), steps);
    s.Some? && |s.value.history| == 2 && Delay(s.value.history[0]) == d && Delay(s.value.history[1]) == 0 &&
    s.value.history[1].began - s.value.history[0].began == gap
  }

  /** That is as close as they come: for every delay some run has its starts no further apart. */
  lemma StartsAsCloseAsThat(c: Config, table: set<Version>, d: nat) returns (steps: seq<Step>)
    requires c.ttl > 0
    ensures TwoStarts(c, table, steps, d, if d < c.ttl then c.ttl - d else 0)
  {
    var i := Initial(0, table);
    var s;
    steps, s := MissTwice(c, i, [], i, 0);
    RunSnoc(c, i, steps, Tick(d));
    steps, s := ComputeAlone(c, i, steps + [Tick(d)], Next(c, s, Tick(d)).value, 0);
    var rest := Tick(if d < c.ttl then c.ttl - d else 0);
    RunSnoc(c, i, steps, rest);
    steps, s := MissTwice(c, i, steps + [rest], Next(c, s, rest).value, 1);
    steps, s := ComputeAlone(c, i, steps, s, 1);
  }

  /** Starts a TTL apart, as far as a run's computations are delayed by d at most. */
  ghost predicate StartsTtlApart(c: Config, clock: int, table: set<Version>, steps: seq<Step>, d: nat) {
    var s := Run(c, Initial(clock, table), steps);
    s.Some? && (forall k :: 0 <= k < |s.value.history| ==> Delay(s.value.history[k]) <= d) ==>
      forall j, k :: 0 <= j < k < |s.value.history| ==> s.value.history[k].began - s.value.history[j].began >= c.ttl
  }

  /** Starts are a TTL apart in every run exactly if work starts at the instant of the clock reading. */
  lemma StartsTtlApartExactly(c: Config, table: set<Version>, d: nat)
    requires c.ttl > 0
    ensures (forall clock, steps :: StartsTtlApart(c, clock, table, steps, d)) <==> d == 0
  {
    if d == 0 {
      forall clock, steps ensures StartsTtlApart(c, clock, table, steps, d) {
        if Run(c, Initial(clock, table), steps).Some? {
          StartsApartLessDelay(c, clock, table, steps);
        }
      }
    } else {
      var steps := StartsAsCloseAsThat(c, table, d);
      var h := Run(c, Initial(0, table), steps).value.history;
      assert h[1].began - h[0].began < c.ttl;
      assert !StartsTtlApart(c, 0, table, steps, d);
    }
  }
}
