/**
 * When the walk of apps/mobile/lib/timeline-thread.ts looks every id up once, and so shows every reply once.
 */
module TimelineTree {
  import opened Common
  import opened TimelineThread
  import opened TimelineWalk

  /** Reply links lead from the root to the id. */
  ghost predicate Reachable(entries: seq<Entry>, root: string, id: string) {
    exists n: nat :: Reaches(entries, root, id, n)
  }

  /** The entry at this place answers an id that reply links lead to. */
  ghost predicate Found(entries: seq<Entry>, root: string, i: nat) {
    i < |entries| && Nested(entries, entries[i]) && Reachable(entries, root, entries[i].parentId.value)
  }

  /** No two of the replies found share an id, and none has the root's. */
  ghost predicate SingleSource(entries: seq<Entry>, root: string) {
    && (forall i: nat :: Found(entries, root, i) ==> entries[i].id != root)
    && (forall i: nat, j: nat :: Found(entries, root, i) && Found(entries, root, j) && i != j ==> entries[i].id != entries[j].id)
  }

  lemma {:induction false} ReachesOn(entries: seq<Entry>, a: string, b: string, n: nat, c: string, m: nat)
    requires Reaches(entries, a, b, n) && Reaches(entries, b, c, m)
    ensures Reaches(entries, a, c, n + m)
    decreases n
  {
    if n > 0 {
      var k :| Answers(entries, k, a) && Reaches(entries, k, b, n - 1);
      ReachesOn(entries, k, b, n - 1, c, m);
    }
  }

  lemma AnswerReachable(entries: seq<Entry>, root: string, id: string, to: string)
    requires Reachable(entries, root, to) && Answers(entries, id, to)
    ensures Reachable(entries, root, id)
  {
    var n: nat :| Reaches(entries, root, to, n);
    assert Reaches(entries, id, id, 0);
    assert Reaches(entries, to, id, 1);
    ReachesOn(entries, root, to, n, id, 1);
  }

  lemma AnswerPlace(entries: seq<Entry>, root: string, id: string, to: string) returns (i: nat)
    requires Reachable(entries, root, to) && Answers(entries, id, to)
    ensures Found(entries, root, i) && entries[i].id == id && entries[i].parentId.value == to
  {
    var e := AnswerTo(entries, id, to);
    i :| i < |entries| && entries[i] == e;
  }

  // ---------------------------------------------------------------------------------------------
  // A single source is enough
  // ---------------------------------------------------------------------------------------------

  lemma {:induction false} SourceOffCycles(entries: seq<Entry>, root: string, id: string, n: nat, m: nat)
    requires SingleSource(entries, root) && Reaches(entries, root, id, n)
    ensures m > 0 ==> !Reaches(entries, id, id, m)
    decreases n
  {
    if m > 0 && Reaches(entries, id, id, m) {
      var q := LastLink(entries, id, id, m);
      ReachesOn(entries, root, id, n, q, m - 1);
      var j := AnswerPlace(entries, root, id, q);
      if n > 0 {
        var p := LastLink(entries, root, id, n);
        var i := AnswerPlace(entries, root, id, p);
        assert i == j && p == q;
        assert Answers(entries, id, p) && Reaches(entries, id, p, m - 1);
        assert Reaches(entries, p, p, m);
        SourceOffCycles(entries, root, p, n - 1, m);
      }
    }
  }

  lemma SingleSourceEnds(entries: seq<Entry>, root: string)
    requires SingleSource(entries, root)
    ensures Ends(entries, root)
  {
    forall id, n: nat | Reaches(entries, root, id, n) ensures !OnCycle(entries, id) {
      forall m: nat | m > 0 ensures !Reaches(entries, id, id, m) {
        SourceOffCycles(entries, root, id, n, m);
      }
    }
    EndsExactly(entries, root);
  }

  /** Every reply put out was found at some place. */
  lemma {:induction false} PutOutWasFound(entries: seq<Entry>, root: string, out: seq<Entry>, up: seq<nat>, done: nat, i: nat)
    returns (p: nat)
    requires Layout(entries, root, out, up, done) && i < |out|
    ensures Found(entries, root, p) && entries[p] == out[i]
    decreases i
  {
    assert Placed(entries, root, out, up, done, i);
    if up[i] > 0 {
      var q := PutOutWasFound(entries, root, out, up, done, up[i] - 1);
      FoundReachable(entries, root, q);
    } else {
      assert Reaches(entries, root, root, 0);
    }
    p :| p < |entries| && entries[p] == out[i];
  }

  lemma FoundReachable(entries: seq<Entry>, root: string, i: nat)
    requires Found(entries, root, i)
    ensures Reachable(entries, root, entries[i].id)
  {
    var to := entries[i].parentId.value;
    KidsFacts(entries, to, |entries|);
    assert entries[..|entries|] == entries;
    var found := Replies(entries, to);
    assert entries[i] in found;
    var k :| 0 <= k < |found| && found[k] == entries[i];
    assert Ids(found)[k] == entries[i].id;
    AnswerReachable(entries, root, entries[i].id, to);
  }

  lemma {:induction false} PutOutOnce(entries: seq<Entry>, root: string, out: seq<Entry>, up: seq<nat>, done: nat,
                                      i: nat, j: nat)
    requires SingleSource(entries, root) && Layout(entries, root, out, up, done) && i < j < |out|
    ensures out[i].id != out[j].id
    decreases j
  {
    if out[i].id == out[j].id {
      LaterParent(entries, root, out, up, done, i, j);
      if up[i] > 0 {
        PutOutOnce(entries, root, out, up, done, up[i] - 1, up[j] - 1);
      } else {
        PutOutNotRoot(entries, root, out, up, done, up[j] - 1);
      }
    }
  }

  /** Two replies put out under one id are the same reply, put out under a parent that was itself put out twice. */
  lemma LaterParent(entries: seq<Entry>, root: string, out: seq<Entry>, up: seq<nat>, done: nat, i: nat, j: nat)
    requires SingleSource(entries, root) && Layout(entries, root, out, up, done) && i < j < |out| && out[i].id == out[j].id
    ensures up[i] < up[j] <= j && Visits(root, out)[up[i]] == Visits(root, out)[up[j]]
  {
    var a := PutOutWasFound(entries, root, out, up, done, i);
    var b := PutOutWasFound(entries, root, out, up, done, j);
    assert a == b;
    OnePlace(entries, root, a);
    assert Placed(entries, root, out, up, done, i) && Placed(entries, root, out, up, done, j);
    assert InOrder(entries, out, up, i, j);
  }

  lemma PutOutNotRoot(entries: seq<Entry>, root: string, out: seq<Entry>, up: seq<nat>, done: nat, i: nat)
    requires SingleSource(entries, root) && Layout(entries, root, out, up, done) && i < |out|
    ensures out[i].id != root
  {
    var p := PutOutWasFound(entries, root, out, up, done, i);
  }

  lemma OnePlace(entries: seq<Entry>, root: string, i: nat)
    requires SingleSource(entries, root) && Found(entries, root, i)
    ensures !Precedes(entries, entries[i], entries[i])
  {
    if Precedes(entries, entries[i], entries[i]) {
      var a, b :| 0 <= a < b < |entries| && entries[a] == entries[i] && entries[b] == entries[i];
      FoundAlike(entries, root, i, a);
      FoundAlike(entries, root, i, b);
    }
  }

  lemma FoundAlike(entries: seq<Entry>, root: string, i: nat, a: nat)
    requires Found(entries, root, i) && a < |entries| && entries[a] == entries[i]
    ensures Found(entries, root, a)
  {
  }

  lemma SingleSourceOnce(entries: seq<Entry>, root: string, out: seq<Entry>, up: seq<nat>, done: nat)
    requires SingleSource(entries, root) && Layout(entries, root, out, up, done)
    ensures Distinct(Visits(root, out))
  {
    var v := Visits(root, out);
    forall i, j | 0 <= i < j < |v| ensures v[i] != v[j] {
      var p := PutOutWasFound(entries, root, out, up, done, j - 1);
      if i > 0 {
        PutOutOnce(entries, root, out, up, done, i - 1, j - 1);
      }
    }
  }

  // ---------------------------------------------------------------------------------------------
  // A single source is necessary
  // ---------------------------------------------------------------------------------------------

  /** The replies to each of the ids, one after another. */
  function Flat(entries: seq<Entry>, ids: seq<string>): seq<Entry> {
    if ids == [] then [] else Flat(entries, ids[..|ids| - 1]) + Replies(entries, ids[|ids| - 1])
  }

  lemma FlatSnoc(entries: seq<Entry>, ids: seq<string>, id: string)
    ensures Flat(entries, ids + [id]) == Flat(entries, ids) + Replies(entries, id)
  {
    assert (ids + [id])[..|ids|] == ids;
  }

  /** What has been put out is the replies to what has been looked up; what is known is that and the queue. */
  lemma {:induction false} FlatAlong(entries: seq<Entry>, root: string, n: nat) returns (looked: seq<string>)
    ensures var w := After(entries, root, n);
      w.out == Flat(entries, looked) && [root] + Ids(w.out) == looked + w.queue
  {
    if n == 0 {
      looked := [];
    } else {
      looked := FlatAlong(entries, root, n - 1);
      var w := After(entries, root, n - 1);
      if w.queue != [] {
        var id, found := w.queue[0], Replies(entries, w.queue[0]);
        FlatSnoc(entries, looked, id);
        IdsConcat(w.out, found);
        assert w.queue == [id] + w.queue[1..];
        Rearrange([root], Ids(w.out), Ids(found), looked, id, w.queue[1..]);
        looked := looked + [id];
      }
    }
  }

  lemma Rearrange(r: seq<string>, a: seq<string>, more: seq<string>, looked: seq<string>, id: string, tail: seq<string>)
    requires r + a == looked + ([id] + tail)
    ensures r + (a + more) == (looked + [id]) + (tail + more)
  {
    assert r + (a + more) == (r + a) + more;
    assert (looked + ([id] + tail)) + more == (looked + [id]) + (tail + more);
  }

  lemma IdsConcat(a: seq<Entry>, b: seq<Entry>)
    ensures Ids(a + b) == Ids(a) + Ids(b)
  {
  }

  function IdCount(s: seq<Entry>, id: string): nat {
    if s == [] then 0 else IdCount(s[..|s| - 1], id) + if s[|s| - 1].id == id then 1 else 0
  }

  lemma {:induction false} IdCountConcat(a: seq<Entry>, b: seq<Entry>, id: string)
    ensures IdCount(a + b, id) == IdCount(a, id) + IdCount(b, id)
  {
    if b == [] {
      assert a + b == a;
    } else {
      assert (a + b)[..|a + b| - 1] == a + b[..|b| - 1];
      IdCountConcat(a, b[..|b| - 1], id);
    }
  }

  lemma {:induction false} CountsOnce(s: seq<Entry>, id: string)
    requires Distinct(Ids(s))
    ensures IdCount(s, id) == if id in Ids(s) then 1 else 0
  {
    if s != [] {
      var front, last := s[..|s| - 1], s[|s| - 1];
      assert Ids(s) == Ids(front) + [last.id];
      DistinctSplits(Ids(front), [last.id]);
      CountsOnce(front, id);
    }
  }

  lemma DistinctSplits(a: seq<string>, b: seq<string>)
    requires Distinct(a + b)
    ensures Distinct(a) && Distinct(b) && forall x :: x in a ==> x !in b
  {
    var s := a + b;
    assert forall i :: 0 <= i < |a| ==> s[i] == a[i];
    assert forall j :: 0 <= j < |b| ==> s[|a| + j] == b[j];
    forall x | x in a ensures x !in b {
      var i :| 0 <= i < |a| && a[i] == x;
    }
  }

  lemma {:induction false} FlatCounts(entries: seq<Entry>, ids: seq<string>, k: nat, id: string)
    requires k < |ids|
    ensures IdCount(Flat(entries, ids), id) >= IdCount(Replies(entries, ids[k]), id)
  {
    var last := |ids| - 1;
    IdCountConcat(Flat(entries, ids[..last]), Replies(entries, ids[last]), id);
    if k < last {
      FlatCounts(entries, ids[..last], k, id);
    }
  }

  lemma {:induction false} FlatCountsBoth(entries: seq<Entry>, ids: seq<string>, k: nat, l: nat, id: string)
    requires k < l < |ids|
    ensures IdCount(Flat(entries, ids), id) >= IdCount(Replies(entries, ids[k]), id) + IdCount(Replies(entries, ids[l]), id)
  {
    var last := |ids| - 1;
    IdCountConcat(Flat(entries, ids[..last]), Replies(entries, ids[last]), id);
    if l < last {
      FlatCountsBoth(entries, ids[..last], k, l, id);
    } else {
      FlatCounts(entries, ids[..last], k, id);
    }
  }

  /** A reply at a place is counted among its parent's. */
  lemma {:induction false} PlaceCounts(entries: seq<Entry>, n: nat, i: nat)
    requires i < n <= |entries| && Nested(entries, entries[i])
    ensures IdCount(Kids(entries, entries[i].parentId.value, n), entries[i].id) >= 1
  {
    KidsStep(entries, entries[i].parentId.value, n, entries[i].id);
    if i < n - 1 {
      PlaceCounts(entries, n - 1, i);
    }
  }

  lemma {:induction false} PlacesCount(entries: seq<Entry>, n: nat, i: nat, j: nat)
    requires i < j < n <= |entries| && Nested(entries, entries[i]) && Nested(entries, entries[j])
    requires entries[i].parentId == entries[j].parentId && entries[i].id == entries[j].id
    ensures IdCount(Kids(entries, entries[i].parentId.value, n), entries[i].id) >= 2
  {
    KidsStep(entries, entries[i].parentId.value, n, entries[i].id);
    if j < n - 1 {
      PlacesCount(entries, n - 1, i, j);
    } else {
      PlaceCounts(entries, n - 1, i);
    }
  }

  lemma KidsStep(entries: seq<Entry>, pid: string, n: nat, id: string)
    requires 0 < n <= |entries|
    ensures var e := entries[n - 1];
      IdCount(Kids(entries, pid, n), id) == IdCount(Kids(entries, pid, n - 1), id) +
        if Nested(entries, e) && e.parentId.value == pid && e.id == id then 1 else 0
  {
    var front, e := Kids(entries, pid, n - 1), entries[n - 1];
    assert (front + [e])[..|front|] == front;
    assert front + [] == front;
  }

  lemma {:induction false} FlatHolds(entries: seq<Entry>, ids: seq<string>, k: nat, id: string)
    requires k < |ids| && Answers(entries, id, ids[k])
    ensures id in Ids(Flat(entries, ids))
  {
    var last := |ids| - 1;
    IdsConcat(Flat(entries, ids[..last]), Replies(entries, ids[last]));
    if k < last {
      FlatHolds(entries, ids[..last], k, id);
    }
  }

  lemma {:induction false} ReachedIsLookedUp(entries: seq<Entry>, root: string, out: seq<Entry>, id: string, n: nat)
    requires out == Flat(entries, [root] + Ids(out)) && Reaches(entries, root, id, n)
    ensures id in [root] + Ids(out)
    decreases n
  {
    if n > 0 {
      var p := LastLink(entries, root, id, n);
      ReachedIsLookedUp(entries, root, out, p, n - 1);
      var k :| 0 <= k < |[root] + Ids(out)| && ([root] + Ids(out))[k] == p;
      FlatHolds(entries, [root] + Ids(out), k, id);
    }
  }

  /** The parent of a reply that was found has been looked up. */
  lemma LookedUpAt(entries: seq<Entry>, root: string, out: seq<Entry>, i: nat) returns (k: nat)
    requires out == Flat(entries, [root] + Ids(out)) && Found(entries, root, i)
    ensures k < |[root] + Ids(out)| && ([root] + Ids(out))[k] == entries[i].parentId.value
    ensures IdCount(Replies(entries, entries[i].parentId.value), entries[i].id) >= 1
  {
    var n: nat :| Reaches(entries, root, entries[i].parentId.value, n);
    ReachedIsLookedUp(entries, root, out, entries[i].parentId.value, n);
    k :| k < |[root] + Ids(out)| && ([root] + Ids(out))[k] == entries[i].parentId.value;
    PlaceCounts(entries, |entries|, i);
  }

  /** Two places that share an id put it out twice. */
  lemma PutOutTwice(entries: seq<Entry>, root: string, out: seq<Entry>, i: nat, j: nat)
    requires out == Flat(entries, [root] + Ids(out)) && i < j
    requires Found(entries, root, i) && Found(entries, root, j) && entries[i].id == entries[j].id
    ensures IdCount(out, entries[i].id) >= 2
  {
    var ids := [root] + Ids(out);
    var k := LookedUpAt(entries, root, out, i);
    var l := LookedUpAt(entries, root, out, j);
    if ids[k] == ids[l] {
      PlacesCount(entries, |entries|, i, j);
      FlatCounts(entries, ids, k, entries[i].id);
    } else if k < l {
      FlatCountsBoth(entries, ids, k, l, entries[i].id);
    } else {
      FlatCountsBoth(entries, ids, l, k, entries[i].id);
    }
  }

  lemma OnceMeansSingleSource(entries: seq<Entry>, root: string, out: seq<Entry>)
    requires out == Flat(entries, [root] + Ids(out)) && Distinct([root] + Ids(out))
    ensures SingleSource(entries, root)
  {
    var ids := [root] + Ids(out);
    DistinctSplits([root], Ids(out));
    assert root in [root];
    forall i: nat | Found(entries, root, i) ensures entries[i].id != root {
      var k := LookedUpAt(entries, root, out, i);
      FlatCounts(entries, ids, k, entries[i].id);
      CountsOnce(out, entries[i].id);
    }
    forall i: nat, j: nat | Found(entries, root, i) && Found(entries, root, j) && i != j
      ensures entries[i].id != entries[j].id
    {
      CountsOnce(out, entries[i].id);
      if entries[i].id == entries[j].id {
        if i < j {
          PutOutTwice(entries, root, out, i, j);
        } else {
          PutOutTwice(entries, root, out, j, i);
        }
      }
    }
  }

  // ---------------------------------------------------------------------------------------------

  ghost predicate LooksUpOnce(entries: seq<Entry>, root: string, out: seq<Entry>) {
    IsWalk(entries, root, out) && Distinct(Visits(root, out))
  }

  /** The walk ends and looks every id up once exactly if no two replies that it finds share an id and none has the
      root's. */
  lemma LooksUpOnceExactly(entries: seq<Entry>, root: string)
    ensures (exists out :: LooksUpOnce(entries, root, out)) <==> SingleSource(entries, root)
  {
    if out :| LooksUpOnce(entries, root, out) {
      var n: nat :| EndsWith(entries, root, n, out);
      var looked := FlatAlong(entries, root, n);
      assert looked + [] == looked;
      assert Visits(root, out) == [root] + Ids(out);
      OnceMeansSingleSource(entries, root, out);
    }
    if SingleSource(entries, root) {
      SingleSourceEnds(entries, root);
      var out :| IsWalk(entries, root, out);
      var n: nat :| EndsWith(entries, root, n, out);
      var up, done := KeptAlong(entries, Entry(true, root, None, ""), n);
      SingleSourceOnce(entries, root, out, up, done);
      assert LooksUpOnce(entries, root, out);
    }
  }

  // ---------------------------------------------------------------------------------------------
  // Unique comment ids
  // ---------------------------------------------------------------------------------------------

  lemma NotTheRoot(entries: seq<Entry>, root: Entry, e: Entry)
    requires UniqueComments(entries) && RootOf(entries, root) && e in entries && Nested(entries, e)
    ensures e.id != root.id
  {
    if e.id == root.id {
      SameCommentSameId(entries, e, root);
    }
  }

  /** Unique comment ids are a special case: they keep every cycle away from every top-level comment. */
  lemma UniqueIdsEnd(entries: seq<Entry>, root: Entry)
    requires UniqueComments(entries) && RootOf(entries, root)
    ensures SingleSource(entries, root.id) && !Endless(entries, root.id)
  {
    forall i: nat | Found(entries, root.id, i) ensures entries[i].id != root.id {
      NotTheRoot(entries, root, entries[i]);
    }
    SingleSourceEnds(entries, root.id);
    EndsExactly(entries, root.id);
  }

  /** With unique ids every walk ends and the rows are the threads. */
  lemma UniqueRows(entries: seq<Entry>, rows: seq<Row>)
    requires UniqueComments(entries)
    ensures forall e :: e in entries && e.comment && !Nested(entries, e) ==> !Endless(entries, e.id)
    ensures AreWalkRows(entries, rows) ==> IsRows(entries, rows)
  {
    forall e | e in entries && e.comment && !Nested(entries, e) ensures !Endless(entries, e.id) {
      UniqueIdsEnd(entries, e);
    }
    if AreWalkRows(entries, rows) {
      var top := TopLevel(entries, |entries|);
      forall k | 0 <= k < |rows| ensures IsRow(entries, top[k], rows[k]) {
        assert IsWalkRow(entries, top[k], rows[k]);
        if top[k].comment {
          WalkIsThread(entries, top[k], rows[k].replies);
        }
      }
    }
  }
}
