/**
 * coalesceTimeline of apps/mobile/lib/timeline-coalesce.ts: consecutive identical activities become one entry
 * carrying a count.
 */
module TimelineCoalesce {
  import opened Common

  const COALESCE_MS: int := 2 * 60 * 1000

  datatype Entry = Entry(activity: bool, action: Option<string>, actorType: Option<string>, actorId: Option<string>,
                         createdAt: int, count: Option<int>, body: string)

  function CountOf(e: Entry): int {
    if e.count.Some? then e.count.value else 1
  }

  /** `next` is merged into `prev`. */
  predicate Merges(prev: Entry, next: Entry) {
    && next.activity && prev.activity
    && next.action != Some("squad_leader_evaluated")
    && prev.action == next.action && prev.actorType == next.actorType && prev.actorId == next.actorId
    && (next.action in {Some("task_completed"), Some("task_failed")}
        || (if next.createdAt >= prev.createdAt then next.createdAt - prev.createdAt else prev.createdAt - next.createdAt)
           <= COALESCE_MS)
  }

  /** A run is shown as its last entry, with the run's length when there is something to count. */
  function Shown(run: seq<Entry>): Entry
    requires run != []
  {
    if |run| == 1 then run[0]
    else run[|run| - 1].(count := Some(CountOf(run[0]) + |run| - 1))
  }

  function Flatten(runs: seq<seq<Entry>>): seq<Entry> {
    if runs == [] then [] else Flatten(runs[..|runs| - 1]) + runs[|runs| - 1]
  }

  /** Each entry of a run merges into the one before it. */
  ghost predicate IsRun(run: seq<Entry>) {
    run != [] && forall i :: 0 < i < |run| ==> Merges(run[i - 1], run[i])
  }

  /** The runs cut the input into contiguous pieces, as long as they can be; each becomes one output entry. */
  ghost predicate IsCoalesced(entries: seq<Entry>, runs: seq<seq<Entry>>, out: seq<Entry>) {
    && Flatten(runs) == entries && |out| == |runs|
    && (forall i :: 0 <= i < |runs| ==> IsRun(runs[i]) && out[i] == Shown(runs[i]))
    && (forall i, j :: 0 <= i && j == i + 1 < |runs| ==> Stops(runs[i], runs[j]))
  }

  ghost predicate Stops(run: seq<Entry>, next: seq<Entry>) {
    run != [] && next != [] && !Merges(run[|run| - 1], next[0])
  }

  /** The loop, as a function of how many entries it has seen. */
  function Coalesced(entries: seq<Entry>, n: nat): seq<Entry>
    requires n <= |entries|
  {
    if n == 0 then [] else Fold(Coalesced(entries, n - 1), entries[n - 1])
  }

  predicate MergesIn(out: seq<Entry>, e: Entry) {
    out != [] && Merges(out[|out| - 1], e)
  }

  /** One turn of the loop: the last entry is overwritten or another is pushed. */
  function Fold(out: seq<Entry>, e: Entry): seq<Entry> {
    if MergesIn(out, e) then out[|out| - 1 := e.(count := Some(CountOf(out[|out| - 1]) + 1))] else out + [e]
  }

  method CoalesceTimeline(entries: seq<Entry>) returns (out: seq<Entry>)
    ensures out == Coalesced(entries, |entries|)
  {
    out := [];
    for i := 0 to |entries|
      invariant out == Coalesced(entries, i)
    {
      var entry := entries[i];
      if entry.activity && |out| > 0 {
        var prev := out[|out| - 1];
        var gap := if entry.createdAt >= prev.createdAt then entry.createdAt - prev.createdAt else prev.createdAt - entry.createdAt;
        if entry.action != Some("squad_leader_evaluated") && prev.activity
           && prev.action == entry.action && prev.actorType == entry.actorType && prev.actorId == entry.actorId
           && (entry.action == Some("task_completed") || entry.action == Some("task_failed") || gap <= COALESCE_MS)
        {
          out := out[|out| - 1 := entry.(count := Some(CountOf(prev) + 1))];
          continue;
        }
      }
      out := out + [entry];
    }
  }

  // ---------------------------------------------------------------------------------------------

  lemma MergesIgnoresCount(run: seq<Entry>, e: Entry)
    requires run != []
    ensures Merges(Shown(run), e) <==> Merges(run[|run| - 1], e)
  {
  }

  /** The output is the input's division into longest runs, whatever counts the input carries. */
  lemma {:induction false} CoalescedRuns(entries: seq<Entry>, n: nat) returns (runs: seq<seq<Entry>>)
    requires n <= |entries|
    ensures IsCoalesced(entries[..n], runs, Coalesced(entries, n))
  {
    if n == 0 {
      runs := [];
      return;
    }
    var before := CoalescedRuns(entries, n - 1);
    assert entries[..n] == entries[..n - 1] + [entries[n - 1]];
    runs := FoldRuns(entries[..n - 1], before, Coalesced(entries, n - 1), entries[n - 1]);
  }

  lemma FoldRuns(entries: seq<Entry>, before: seq<seq<Entry>>, out: seq<Entry>, e: Entry) returns (runs: seq<seq<Entry>>)
    requires IsCoalesced(entries, before, out)
    ensures IsCoalesced(entries + [e], runs, Fold(out, e))
  {
    MergesWithLast(entries, before, out, e);
    if MergesIn(out, e) {
      runs := ExtendLast(entries, before, out, e);
    } else {
      runs := before + [[e]];
      StartRun(entries, before, out, e);
    }
  }

  /** The next entry merges into what is shown exactly when it continues the last run. */
  lemma MergesWithLast(entries: seq<Entry>, before: seq<seq<Entry>>, out: seq<Entry>, e: Entry)
    requires IsCoalesced(entries, before, out)
    ensures |out| == |before| && (before != [] ==> before[|before| - 1] != [])
    ensures MergesIn(out, e) <==> before != [] && Merges(before[|before| - 1][|before[|before| - 1]| - 1], e)
  {
    if before != [] {
      assert IsRun(before[|before| - 1]) && out[|out| - 1] == Shown(before[|before| - 1]);
      MergesIgnoresCount(before[|before| - 1], e);
    }
  }

  lemma StartRun(entries: seq<Entry>, before: seq<seq<Entry>>, out: seq<Entry>, e: Entry)
    requires IsCoalesced(entries, before, out)
    requires before != [] ==> Stops(before[|before| - 1], [e])
    ensures IsCoalesced(entries + [e], before + [[e]], out + [e])
  {
    var runs := before + [[e]];
    assert runs[..|before|] == before;
    forall i, j | 0 <= i && j == i + 1 < |runs| ensures Stops(runs[i], runs[j]) {
      if j < |before| { assert Stops(before[i], before[j]); }
    }
  }

  lemma ExtendLast(entries: seq<Entry>, before: seq<seq<Entry>>, out: seq<Entry>, e: Entry) returns (runs: seq<seq<Entry>>)
    requires IsCoalesced(entries, before, out) && before != []
    requires Merges(before[|before| - 1][|before[|before| - 1]| - 1], e)
    ensures IsCoalesced(entries + [e], runs, out[|out| - 1 := e.(count := Some(CountOf(out[|out| - 1]) + 1))])
  {
    var last := |before| - 1;
    var run := before[last] + [e];
    runs := before[last := run];
    assert runs[..last] == before[..last];
    assert Flatten(runs) == Flatten(before[..last]) + run;
    assert Flatten(before[..last]) + (before[last] + [e]) == (Flatten(before[..last]) + before[last]) + [e];
    forall i | 0 < i < |run| ensures Merges(run[i - 1], run[i]) {
      if i < |before[last]| { assert Merges(before[last][i - 1], before[last][i]); }
    }
    forall i, j | 0 <= i && j == i + 1 < |runs| ensures Stops(runs[i], runs[j]) {
      assert Stops(before[i], before[j]);
    }
  }

  /** Everything in a run of two or more is an activity of one actor and one action, and never an evaluation; one that is
      no task result is two minutes at most from the one before it. */
  ghost predicate OneActorsDoing(run: seq<Entry>)
    requires run != []
  {
    && (forall i :: 0 <= i < |run| ==>
         && run[i].activity && run[i].action == run[0].action && run[i].action != Some("squad_leader_evaluated")
         && run[i].actorType == run[0].actorType && run[i].actorId == run[0].actorId)
    && (run[0].action in {Some("task_completed"), Some("task_failed")} ||
        forall i :: 0 < i < |run| ==> -120_000 <= run[i].createdAt - run[i - 1].createdAt <= 120_000)
  }

  /** Two entries that could have been one run's neighbours. */
  ghost predicate CouldFollow(prev: Entry, next: Entry) {
    OneActorsDoing([prev, next])
  }

  lemma {:induction false} RunAgrees(run: seq<Entry>, i: nat)
    requires IsRun(run) && i < |run| && |run| > 1
    ensures run[i].activity && run[i].action == run[0].action && run[i].action != Some("squad_leader_evaluated")
    ensures run[i].actorType == run[0].actorType && run[i].actorId == run[0].actorId
  {
    assert Merges(run[0], run[1]);
    if i > 0 {
      RunAgrees(run, i - 1);
      assert Merges(run[i - 1], run[i]);
    }
  }

  /** Runs are what one actor does again and again, and neighbouring runs could not have been one. */
  lemma RunsAreOneActors(entries: seq<Entry>, runs: seq<seq<Entry>>, out: seq<Entry>)
    requires IsCoalesced(entries, runs, out)
    ensures forall i :: 0 <= i < |runs| ==> runs[i] != [] && (|runs[i]| > 1 ==> OneActorsDoing(runs[i]))
    ensures forall i :: 0 < i < |runs| ==> !CouldFollow(runs[i - 1][|runs[i - 1]| - 1], runs[i][0])
  {
    forall i | 0 <= i < |runs| ensures runs[i] != [] && (|runs[i]| > 1 ==> OneActorsDoing(runs[i])) {
      assert IsRun(runs[i]);
      if |runs[i]| > 1 {
        RunIsOneActors(runs[i]);
      }
    }
    forall i | 0 < i < |runs| ensures !CouldFollow(runs[i - 1][|runs[i - 1]| - 1], runs[i][0]) {
      assert IsRun(runs[i - 1]) && Stops(runs[i - 1], runs[i]);
      FollowingMerges(runs[i - 1][|runs[i - 1]| - 1], runs[i][0]);
    }
  }

  lemma RunIsOneActors(run: seq<Entry>)
    requires IsRun(run) && |run| > 1
    ensures OneActorsDoing(run)
  {
    forall i | 0 <= i < |run|
      ensures run[i].activity && run[i].action == run[0].action && run[i].action != Some("squad_leader_evaluated")
      ensures run[i].actorType == run[0].actorType && run[i].actorId == run[0].actorId
    {
      RunAgrees(run, i);
    }
    forall i | 0 < i < |run|
      ensures run[0].action in {Some("task_completed"), Some("task_failed")} ||
        -120_000 <= run[i].createdAt - run[i - 1].createdAt <= 120_000
    {
      assert Merges(run[i - 1], run[i]);
    }
  }

  lemma FollowingMerges(prev: Entry, next: Entry)
    ensures CouldFollow(prev, next) ==> Merges(prev, next)
  {
    var pair := [prev, next];
    assert pair[0] == prev && pair[1] == next;
    if OneActorsDoing(pair) {
      assert pair[1].activity && pair[0].activity;
    }
  }

  ghost predicate Chronological(entries: seq<Entry>) {
    forall i, j :: 0 <= i < j < |entries| ==> entries[i].createdAt <= entries[j].createdAt
  }

  ghost predicate Uncounted(entries: seq<Entry>) {
    forall i :: 0 <= i < |entries| ==> entries[i].count.None?
  }

  function TotalCount(es: seq<Entry>): int {
    if es == [] then 0 else TotalCount(es[..|es| - 1]) + CountOf(es[|es| - 1])
  }

  /** What merging loses: the counts the merged entries came in with beyond one each. */
  function LostCounts(entries: seq<Entry>, n: nat): int
    requires n <= |entries|
  {
    if n == 0 then 0
    else
      LostCounts(entries, n - 1) + Lost(Coalesced(entries, n - 1), entries[n - 1])
  }

  function Lost(out: seq<Entry>, e: Entry): int {
    if MergesIn(out, e) then CountOf(e) - 1 else 0
  }

  /** The counts shown add up to those of the input, less the prior counts of the entries merged away. */
  lemma {:induction false} CountsAddUp(entries: seq<Entry>, n: nat)
    requires n <= |entries|
    ensures TotalCount(Coalesced(entries, n)) + LostCounts(entries, n) == TotalCount(entries[..n])
  {
    if n > 0 {
      CountsAddUp(entries, n - 1);
      TotalOfPrefix(entries, n);
      OneMoreCounts(Coalesced(entries, n - 1), entries[n - 1]);
    }
  }

  lemma TotalOfPrefix(entries: seq<Entry>, n: nat)
    requires 0 < n <= |entries|
    ensures TotalCount(entries[..n]) == TotalCount(entries[..n - 1]) + CountOf(entries[n - 1])
  {
    assert entries[..n] == entries[..n - 1] + [entries[n - 1]];
    TotalOfAppended(entries[..n - 1], entries[n - 1]);
  }

  lemma OneMoreCounts(out: seq<Entry>, e: Entry)
    ensures TotalCount(Fold(out, e)) + Lost(out, e) == TotalCount(out) + CountOf(e)
  {
    if MergesIn(out, e) {
      TotalOfReplaced(out, e.(count := Some(CountOf(out[|out| - 1]) + 1)));
    } else {
      TotalOfAppended(out, e);
    }
  }

  lemma TotalOfAppended(out: seq<Entry>, e: Entry)
    ensures TotalCount(out + [e]) == TotalCount(out) + CountOf(e)
  {
    assert (out + [e])[..|out|] == out;
  }

  lemma TotalOfReplaced(out: seq<Entry>, e: Entry)
    requires out != []
    ensures TotalCount(out[|out| - 1 := e]) == TotalCount(out) - CountOf(out[|out| - 1]) + CountOf(e)
  {
    assert out[|out| - 1 := e][..|out| - 1] == out[..|out| - 1];
  }

  lemma {:induction false} NothingLost(entries: seq<Entry>, n: nat)
    requires n <= |entries| && Uncounted(entries)
    ensures LostCounts(entries, n) == 0 && TotalCount(entries[..n]) == n
  {
    if n > 0 {
      NothingLost(entries, n - 1);
      assert entries[..n][..n - 1] == entries[..n - 1];
    }
  }

  /**
   * Without prior counts: every output entry is its run's last with the run's length as count, comments and squad
   * evaluations stand alone, and the counts add up to the input's length.
   */
  lemma CoalescingPartitions(entries: seq<Entry>) returns (runs: seq<seq<Entry>>)
    requires Uncounted(entries)
    ensures IsCoalesced(entries, runs, Coalesced(entries, |entries|))
    ensures forall i :: 0 <= i < |runs| ==>
              && CountOf(Coalesced(entries, |entries|)[i]) == |runs[i]|
              && (!runs[i][0].activity || runs[i][0].action == Some("squad_leader_evaluated") ==> |runs[i]| == 1)
    ensures TotalCount(Coalesced(entries, |entries|)) == |entries|
  {
    assert entries[..|entries|] == entries;
    runs := CoalescedRuns(entries, |entries|);
    CountsAddUp(entries, |entries|);
    NothingLost(entries, |entries|);
    forall i | 0 <= i < |runs|
      ensures CountOf(Coalesced(entries, |entries|)[i]) == |runs[i]|
      ensures !runs[i][0].activity || runs[i][0].action == Some("squad_leader_evaluated") ==> |runs[i]| == 1
    {
      assert IsRun(runs[i]);
      InFlatten(runs, i, 0);
      assert runs[i][0] in entries;
      if |runs[i]| > 1 { assert Merges(runs[i][0], runs[i][1]); }
    }
  }

  lemma {:induction false} InFlatten(runs: seq<seq<Entry>>, i: nat, k: nat)
    requires i < |runs| && k < |runs[i]|
    ensures runs[i][k] in Flatten(runs)
  {
    if i < |runs| - 1 {
      InFlatten(runs[..|runs| - 1], i, k);
    }
  }

  // ---------------------------------------------------------------------------------------------
  // Idempotence
  // ---------------------------------------------------------------------------------------------

  ghost predicate NoNeighboursMerge(out: seq<Entry>) {
    forall i, j :: 0 <= i && j == i + 1 < |out| ==> !Merges(out[i], out[j])
  }

  lemma {:induction false} UnmergeableStays(out: seq<Entry>, n: nat)
    requires n <= |out| && NoNeighboursMerge(out)
    ensures Coalesced(out, n) == out[..n]
  {
    if n > 0 {
      UnmergeableStays(out, n - 1);
      assert n > 1 ==> !Merges(out[n - 2], out[n - 1]);
    }
  }

  /** Coalescing never lengthens, and shortens as soon as two neighbours merge. */
  lemma {:induction false} LengthTells(out: seq<Entry>, n: nat)
    requires n <= |out|
    ensures |Coalesced(out, n)| <= n
    ensures |Coalesced(out, n)| == n ==> NoNeighboursMerge(out[..n])
  {
    if n > 0 {
      LengthTells(out, n - 1);
      if |Coalesced(out, n)| == n {
        OneMoreApart(out, n);
      }
    }
  }

  lemma OneMoreApart(out: seq<Entry>, n: nat)
    requires 0 < n <= |out| && |Coalesced(out, n)| == n && |Coalesced(out, n - 1)| <= n - 1
    requires NoNeighboursMerge(out[..n - 1])
    ensures NoNeighboursMerge(out[..n])
  {
    UnmergeableStays(out[..n - 1], n - 1);
    SamePrefix(out, out[..n - 1], n - 1);
    assert Coalesced(out, n - 1) == out[..n - 1];
    assert !MergesIn(out[..n - 1], out[n - 1]);
    forall i, j | 0 <= i && j == i + 1 < n ensures !Merges(out[..n][i], out[..n][j]) {
      assert j < n - 1 ==> !Merges(out[..n - 1][i], out[..n - 1][j]);
    }
  }

  lemma {:induction false} SamePrefix(s: seq<Entry>, t: seq<Entry>, n: nat)
    requires n <= |s| && n <= |t| && s[..n] == t[..n]
    ensures Coalesced(s, n) == Coalesced(t, n)
  {
    if n > 0 {
      assert s[..n - 1] == s[..n][..n - 1] && t[..n - 1] == t[..n][..n - 1];
      assert s[n - 1] == s[..n][n - 1] && t[n - 1] == t[..n][n - 1];
      SamePrefix(s, t, n - 1);
    }
  }

  /** The positions, among the first n, of the entries no later neighbour merges into. */
  function Ends(entries: seq<Entry>, n: nat): seq<nat>
    requires n <= |entries|
  {
    if n == 0 then [] else NextEnds(entries, n, Ends(entries, n - 1))
  }

  function NextEnds(entries: seq<Entry>, n: nat, before: seq<nat>): seq<nat>
    requires 0 < n <= |entries|
  {
    if n > 1 && before != [] && Merges(entries[n - 2], entries[n - 1]) then before[..|before| - 1] + [n - 1]
    else before + [n - 1]
  }

  ghost predicate RunEnd(entries: seq<Entry>, n: nat, e: nat)
    requires n <= |entries|
  {
    e < n && (e + 1 == n || !Merges(entries[e], entries[e + 1]))
  }

  ghost predicate Ascending(ends: seq<nat>) {
    forall i, j :: 0 <= i < j < |ends| ==> ends[i] < ends[j]
  }

  /** The run ends among the first n, in order. */
  ghost predicate AreEnds(entries: seq<Entry>, n: nat, ends: seq<nat>)
    requires n <= |entries|
  {
    && Ascending(ends)
    && (if n == 0 then ends == [] else ends != [] && ends[|ends| - 1] == n - 1)
    && forall e :: e in ends <==> RunEnd(entries, n, e)
  }

  lemma {:induction false} EndsFacts(entries: seq<Entry>, n: nat)
    requires n <= |entries|
    ensures AreEnds(entries, n, Ends(entries, n))
  {
    if n > 0 {
      EndsFacts(entries, n - 1);
      EndsStep(entries, n, Ends(entries, n - 1));
    }
  }

  lemma EndsStep(entries: seq<Entry>, n: nat, before: seq<nat>)
    requires 0 < n <= |entries| && AreEnds(entries, n - 1, before)
    ensures AreEnds(entries, n, NextEnds(entries, n, before))
  {
    var ends := NextEnds(entries, n, before);
    if n > 1 {
      var front := before[..|before| - 1];
      assert before == front + [n - 2];
      assert forall e :: e in front ==> e in before && e < n - 2;
    }
    forall e ensures e in ends <==> RunEnd(entries, n, e) {
      assert e in before <==> RunEnd(entries, n - 1, e);
    }
  }

  /** The output entries are those at these positions, but for their counts. */
  ghost predicate ShowsAt(entries: seq<Entry>, out: seq<Entry>, ends: seq<nat>) {
    |out| == |ends| && forall i :: 0 <= i < |ends| ==> ShowsOne(entries, out[i], ends[i])
  }

  ghost predicate ShowsOne(entries: seq<Entry>, out: Entry, e: nat) {
    e < |entries| && out == entries[e].(count := out.count)
  }

  /** The output shows the run ends, every one of them and in order. */
  lemma {:induction false} ShowsRunEnds(entries: seq<Entry>, n: nat)
    requires n <= |entries|
    ensures ShowsAt(entries, Coalesced(entries, n), Ends(entries, n))
  {
    if n > 0 {
      ShowsRunEnds(entries, n - 1);
      EndsFacts(entries, n - 1);
      ShowsStep(entries, n, Coalesced(entries, n - 1), Ends(entries, n - 1));
    }
  }

  lemma ShowsStep(entries: seq<Entry>, n: nat, out: seq<Entry>, before: seq<nat>)
    requires 0 < n <= |entries| && ShowsAt(entries, out, before) && AreEnds(entries, n - 1, before)
    ensures ShowsAt(entries, Fold(out, entries[n - 1]), NextEnds(entries, n, before))
  {
    MergesAsBefore(entries, n, out, before);
    if MergesIn(out, entries[n - 1]) {
      var shown := entries[n - 1].(count := Some(CountOf(out[|out| - 1]) + 1));
      ShowsReplace(entries, out, before, shown, n - 1);
    } else {
      ShowsPush(entries, out, before, entries[n - 1], n - 1);
    }
  }

  /** Whether the next entry merges is the same for the last one shown and for the last one read. */
  lemma MergesAsBefore(entries: seq<Entry>, n: nat, out: seq<Entry>, before: seq<nat>)
    requires 0 < n <= |entries| && ShowsAt(entries, out, before) && AreEnds(entries, n - 1, before)
    ensures |out| == |before| && (n > 1 <==> before != [])
    ensures MergesIn(out, entries[n - 1]) <==> n > 1 && Merges(entries[n - 2], entries[n - 1])
  {
    if n > 1 {
      assert ShowsOne(entries, out[|out| - 1], before[|before| - 1]);
    }
  }

  lemma ShowsReplace(entries: seq<Entry>, out: seq<Entry>, ends: seq<nat>, shown: Entry, e: nat)
    requires ShowsAt(entries, out, ends) && ends != [] && ShowsOne(entries, shown, e)
    ensures ShowsAt(entries, out[|out| - 1 := shown], ends[..|ends| - 1] + [e])
  {
    var last := |out| - 1;
    assert out[last := shown] == out[..last] + [shown];
    assert ShowsAt(entries, out[..last], ends[..last]);
    ShowsPush(entries, out[..last], ends[..last], shown, e);
  }

  lemma ShowsPush(entries: seq<Entry>, out: seq<Entry>, ends: seq<nat>, shown: Entry, e: nat)
    requires ShowsAt(entries, out, ends) && ShowsOne(entries, shown, e)
    ensures ShowsAt(entries, out + [shown], ends + [e])
  {
  }

  /** On chronological input every output entry is as new as the newest entry of its run, and of all runs before. */
  lemma NewestIsShown(entries: seq<Entry>, i: nat)
    requires Chronological(entries) && i < |Coalesced(entries, |entries|)|
    ensures i < |Ends(entries, |entries|)| && Ends(entries, |entries|)[i] < |entries|
    ensures Coalesced(entries, |entries|)[i].createdAt == entries[Ends(entries, |entries|)[i]].createdAt
    ensures forall e :: 0 <= e <= Ends(entries, |entries|)[i] ==>
      entries[e].createdAt <= Coalesced(entries, |entries|)[i].createdAt
  {
    ShowsRunEnds(entries, |entries|);
    assert ShowsOne(entries, Coalesced(entries, |entries|)[i], Ends(entries, |entries|)[i]);
  }

  /** Two run ends with no other between them. */
  ghost predicate AdjacentEnds(entries: seq<Entry>, p: nat, r: nat) {
    p < r && RunEnd(entries, |entries|, p) && RunEnd(entries, |entries|, r) &&
    forall e :: p < e < r ==> !RunEnd(entries, |entries|, e)
  }

  ghost predicate AdjacentEndsApart(entries: seq<Entry>) {
    forall p: nat, r: nat :: AdjacentEnds(entries, p, r) ==> !Merges(entries[p], entries[r])
  }

  /** No two neighbours of the output merge exactly if no two adjacent run ends of the input do. */
  lemma NeighboursAreRunEnds(entries: seq<Entry>)
    ensures NoNeighboursMerge(Coalesced(entries, |entries|)) <==> AdjacentEndsApart(entries)
  {
    var out, ends := Coalesced(entries, |entries|), Ends(entries, |entries|);
    ShowsRunEnds(entries, |entries|);
    EndsFacts(entries, |entries|);
    if AdjacentEndsApart(entries) {
      EndsApartKeepsApart(entries, out, ends);
    }
    if NoNeighboursMerge(out) {
      forall p: nat, r: nat | AdjacentEnds(entries, p, r) ensures !Merges(entries[p], entries[r]) {
        var i := PlaceOf(entries, ends, p, r);
        OneEndsApart(entries, out, ends, i, i + 1);
      }
    }
  }

  lemma OneEndsApart(entries: seq<Entry>, out: seq<Entry>, ends: seq<nat>, i: nat, j: nat)
    requires ShowsAt(entries, out, ends) && NoNeighboursMerge(out) && j == i + 1 < |ends|
    ensures ends[i] < |entries| && ends[j] < |entries| && !Merges(entries[ends[i]], entries[ends[j]])
  {
    assert !Merges(out[i], out[j]);
    SameMerge(entries, out, ends, i);
  }

  lemma EndsApartKeepsApart(entries: seq<Entry>, out: seq<Entry>, ends: seq<nat>)
    requires ShowsAt(entries, out, ends) && AreEnds(entries, |entries|, ends) && AdjacentEndsApart(entries)
    ensures NoNeighboursMerge(out)
  {
    forall i, j | 0 <= i && j == i + 1 < |out| ensures !Merges(out[i], out[j]) {
      NeighboursAdjacent(entries, ends, i);
      SameMerge(entries, out, ends, i);
    }
  }

  lemma SameMerge(entries: seq<Entry>, out: seq<Entry>, ends: seq<nat>, i: nat)
    requires ShowsAt(entries, out, ends) && i + 1 < |ends|
    ensures ends[i] < |entries| && ends[i + 1] < |entries|
    ensures Merges(out[i], out[i + 1]) <==> Merges(entries[ends[i]], entries[ends[i + 1]])
  {
    assert ShowsOne(entries, out[i], ends[i]) && ShowsOne(entries, out[i + 1], ends[i + 1]);
  }

  lemma NeighboursAdjacent(entries: seq<Entry>, ends: seq<nat>, i: nat)
    requires AreEnds(entries, |entries|, ends) && i + 1 < |ends|
    ensures AdjacentEnds(entries, ends[i], ends[i + 1])
  {
    assert ends[i] in ends && ends[i + 1] in ends;
    forall e | ends[i] < e < ends[i + 1] ensures !RunEnd(entries, |entries|, e) {
      assert e !in ends;
    }
  }

  lemma PlaceOf(entries: seq<Entry>, ends: seq<nat>, p: nat, r: nat) returns (i: nat)
    requires AreEnds(entries, |entries|, ends) && AdjacentEnds(entries, p, r)
    ensures i + 1 < |ends| && ends[i] == p && ends[i + 1] == r
  {
    assert p in ends && r in ends;
    i :| i < |ends| && ends[i] == p;
    var k: nat :| k < |ends| && ends[k] == r;
    assert i < k;
    var e := ends[i + 1];
    assert e in ends && p < e <= r;
  }

  /** Coalescing again changes nothing exactly if no two neighbouring run ends of the input merge. */
  lemma IdempotentExactly(entries: seq<Entry>)
    ensures var out := Coalesced(entries, |entries|);
      Coalesced(out, |out|) == out <==> AdjacentEndsApart(entries)
  {
    var out := Coalesced(entries, |entries|);
    NeighboursAreRunEnds(entries);
    assert out[..|out|] == out;
    if NoNeighboursMerge(out) {
      UnmergeableStays(out, |out|);
    }
    LengthTells(out, |out|);
  }

  /** If an entry did not merge into the one before, no later entry merging into it does. */
  lemma LaterStillApart(prev: Entry, last: Entry, e: Entry)
    requires !Merges(prev, last) && Merges(last, e)
    requires prev.createdAt <= last.createdAt <= e.createdAt
    ensures !Merges(prev, e)
  {
  }

  lemma {:induction false} ApartFromTheRun(entries: seq<Entry>, p: nat, r: nat)
    requires Chronological(entries) && p < r < |entries| && RunEnd(entries, |entries|, p)
    requires forall e :: p < e < r ==> !RunEnd(entries, |entries|, e)
    ensures !Merges(entries[p], entries[r])
    decreases r
  {
    if p + 1 < r {
      ApartFromTheRun(entries, p, r - 1);
      assert !RunEnd(entries, |entries|, r - 1);
      LaterStillApart(entries[p], entries[r - 1], entries[r]);
    }
  }

  /** On chronological input that is always so. */
  lemma Idempotent(entries: seq<Entry>)
    requires Chronological(entries)
    ensures var out := Coalesced(entries, |entries|);
      NoNeighboursMerge(out) && Coalesced(out, |out|) == out
  {
    forall p: nat, r: nat | AdjacentEnds(entries, p, r) ensures !Merges(entries[p], entries[r]) {
      ApartFromTheRun(entries, p, r);
    }
    NeighboursAreRunEnds(entries);
    IdempotentExactly(entries);
  }

  /** Out of order input may need a second pass. */
  lemma DisorderNeedsASecondPass(a: Entry, t: int)
    requires a.activity && a.action == Some("status_changed") && a.count.None?
    ensures var x := [a.(createdAt := t), a.(createdAt := t + 180000), a.(createdAt := t + 90000)];
      var out := Coalesced(x, 3);
      |out| == 2 && |Coalesced(out, 2)| == 1
  {
    var x := [a.(createdAt := t), a.(createdAt := t + 180000), a.(createdAt := t + 90000)];
    assert Coalesced(x, 1) == [x[0]];
    assert Coalesced(x, 2) == [x[0], x[1]];
    var out := Coalesced(x, 3);
    assert out == [x[0], x[2].(count := Some(2))];
    assert Coalesced(out, 1) == [out[0]];
  }
}
