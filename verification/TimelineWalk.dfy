/**
 * The loops of apps/mobile/lib/timeline-thread.ts: the walk over reply links that keeps no visited set, when it ends,
 * and what it returns when it does.
 */
module TimelineWalk {
  import opened Common
  import opened TimelineThread

  // ---------------------------------------------------------------------------------------------
  // The walk, turn by turn
  // ---------------------------------------------------------------------------------------------

  function Ids(es: seq<Entry>): seq<string> {
    seq(|es|, i requires 0 <= i < |es| => es[i].id)
  }

  function Replies(entries: seq<Entry>, id: string): seq<Entry> {
    Kids(entries, id, |entries|)
  }

  /** The queue, and what has been put out, after n turns of the loop. */
  datatype Walk = Walk(queue: seq<string>, out: seq<Entry>)

  function Turn(entries: seq<Entry>, w: Walk): Walk {
    if w.queue == [] then w
    else
      var found := Replies(entries, w.queue[0]);
      Walk(w.queue[1..] + Ids(found), w.out + found)
  }

  function After(entries: seq<Entry>, root: string, n: nat): Walk {
    if n == 0 then Walk([root], []) else Turn(entries, After(entries, root, n - 1))
  }

  ghost predicate EndsWith(entries: seq<Entry>, root: string, n: nat, out: seq<Entry>) {
    After(entries, root, n) == Walk([], out)
  }

  /** The walk ends, with this. */
  ghost predicate IsWalk(entries: seq<Entry>, root: string, out: seq<Entry>) {
    exists n: nat :: EndsWith(entries, root, n, out)
  }

  ghost predicate Ends(entries: seq<Entry>, root: string) {
    exists out :: IsWalk(entries, root, out)
  }

  // ---------------------------------------------------------------------------------------------
  // Reply links between ids
  // ---------------------------------------------------------------------------------------------

  ghost predicate Answers(entries: seq<Entry>, id: string, to: string) {
    id in Ids(Replies(entries, to))
  }

  /** n reply links lead from one id to another. */
  ghost predicate Reaches(entries: seq<Entry>, from: string, to: string, n: nat)
    decreases n
  {
    if n == 0 then from == to else exists k :: Answers(entries, k, from) && Reaches(entries, k, to, n - 1)
  }

  ghost predicate OnCycle(entries: seq<Entry>, id: string) {
    exists n: nat :: n > 0 && Reaches(entries, id, id, n)
  }

  /** Some id that reply links lead to leads back to itself. */
  ghost predicate Endless(entries: seq<Entry>, root: string) {
    exists id, n: nat :: Reaches(entries, root, id, n) && OnCycle(entries, id)
  }

  lemma EndlessReply(entries: seq<Entry>, id: string) returns (k: string)
    requires Endless(entries, id)
    ensures Answers(entries, k, id) && Endless(entries, k)
  {
    var to: string, n: nat :| Reaches(entries, id, to, n) && OnCycle(entries, to);
    if n > 0 {
      k :| Answers(entries, k, id) && Reaches(entries, k, to, n - 1);
    } else {
      var m: nat :| m > 0 && Reaches(entries, to, to, m);
      k :| Answers(entries, k, id) && Reaches(entries, k, to, m - 1);
    }
  }

  lemma AnswerTo(entries: seq<Entry>, id: string, to: string) returns (e: Entry)
    requires Answers(entries, id, to)
    ensures e in entries && Nested(entries, e) && e.parentId.value == to && e.id == id
  {
    KidsFacts(entries, to, |entries|);
    assert entries[..|entries|] == entries;
    var found := Replies(entries, to);
    var i :| 0 <= i < |found| && found[i].id == id;
    assert found[i] in found;
    e := found[i];
  }

  lemma {:induction false} LastLink(entries: seq<Entry>, from: string, to: string, n: nat) returns (p: string)
    requires n > 0 && Reaches(entries, from, to, n)
    ensures Reaches(entries, from, p, n - 1) && Answers(entries, to, p)
    decreases n
  {
    var k :| Answers(entries, k, from) && Reaches(entries, k, to, n - 1);
    if n == 1 {
      p := from;
    } else {
      p := LastLink(entries, k, to, n - 1);
      assert Answers(entries, k, from) && Reaches(entries, k, p, n - 2);
    }
  }

  /** An endless id never leaves the queue without another one entering it. */
  lemma {:induction false} EndlessStays(entries: seq<Entry>, root: string, n: nat) returns (id: string)
    requires Endless(entries, root)
    ensures id in After(entries, root, n).queue && Endless(entries, id)
  {
    if n == 0 {
      id := root;
    } else {
      id := EndlessStays(entries, root, n - 1);
      var q := After(entries, root, n - 1).queue;
      assert q == [q[0]] + q[1..];
      if id == q[0] {
        id := EndlessReply(entries, id);
      }
    }
  }

  // ---------------------------------------------------------------------------------------------
  // How much work an id is
  // ---------------------------------------------------------------------------------------------

  /** No chain of reply links from the id is longer than d. */
  ghost predicate Shallow(entries: seq<Entry>, id: string, d: nat)
    decreases d
  {
    forall k :: Answers(entries, k, id) ==> d > 0 && Shallow(entries, k, d - 1)
  }

  lemma {:induction false} Deeper(entries: seq<Entry>, id: string, d: nat, e: nat)
    requires Shallow(entries, id, d) && d <= e
    ensures Shallow(entries, id, e)
    decreases d
  {
    forall k | Answers(entries, k, id) ensures e > 0 && Shallow(entries, k, e - 1) {
      Deeper(entries, k, d - 1, e - 1);
    }
  }

  /** The turns it takes to be done with an id and with all that follows from it. */
  function Work(entries: seq<Entry>, id: string, d: nat): nat
    decreases d, 1
  {
    if d == 0 then 1 else 1 + WorkOf(entries, Ids(Replies(entries, id)), d - 1)
  }

  function WorkOf(entries: seq<Entry>, ids: seq<string>, d: nat): nat
    decreases d, 2, ids
  {
    if ids == [] then 0 else Work(entries, ids[0], d) + WorkOf(entries, ids[1..], d)
  }

  lemma {:induction false} WorkConcat(entries: seq<Entry>, a: seq<string>, b: seq<string>, d: nat)
    ensures WorkOf(entries, a + b, d) == WorkOf(entries, a, d) + WorkOf(entries, b, d)
    decreases |a|
  {
    if a == [] {
      assert a + b == b;
    } else {
      assert (a + b)[1..] == a[1..] + b;
      WorkConcat(entries, a[1..], b, d);
    }
  }

  ghost predicate AllShallow(entries: seq<Entry>, ids: seq<string>, d: nat) {
    forall id :: id in ids ==> Shallow(entries, id, d)
  }

  /** A depth that is enough gives the same work as any greater one. */
  lemma {:induction false} WorkSettles(entries: seq<Entry>, id: string, d: nat)
    requires Shallow(entries, id, d)
    ensures Work(entries, id, d) == Work(entries, id, d + 1)
    decreases d, 1
  {
    var ids := Ids(Replies(entries, id));
    if d == 0 {
      if ids != [] {
        assert Answers(entries, ids[0], id);
      }
    } else {
      assert AllShallow(entries, ids, d - 1) by {
        assert forall k :: k in ids ==> Answers(entries, k, id);
      }
      WorkOfSettles(entries, ids, d - 1);
    }
  }

  lemma {:induction false} WorkOfSettles(entries: seq<Entry>, ids: seq<string>, d: nat)
    requires AllShallow(entries, ids, d)
    ensures WorkOf(entries, ids, d) == WorkOf(entries, ids, d + 1)
    decreases d, 2, ids
  {
    if ids != [] {
      WorkSettles(entries, ids[0], d);
      WorkOfSettles(entries, ids[1..], d);
    }
  }

  /** A turn takes an id that is shallow off the queue, puts shallow ones on, and leaves one turn less to do. */
  lemma TurnWorks(entries: seq<Entry>, w: Walk, d: nat)
    requires w.queue != [] && AllShallow(entries, w.queue, d)
    ensures AllShallow(entries, Turn(entries, w).queue, d)
    ensures WorkOf(entries, Turn(entries, w).queue, d) == WorkOf(entries, w.queue, d) - 1
  {
    var id, ids := w.queue[0], Ids(Replies(entries, w.queue[0]));
    forall k | k in ids ensures Shallow(entries, k, d) {
      assert Answers(entries, k, id) && Shallow(entries, id, d);
      Deeper(entries, k, d - 1, d);
    }
    WorkSettles(entries, id, d);
    assert Work(entries, id, d + 1) == 1 + WorkOf(entries, ids, d);
    WorkConcat(entries, w.queue[1..], ids, d);
  }

  /** The walk is over after as many turns as the root is work. */
  lemma {:induction false} EndsInTime(entries: seq<Entry>, root: string, d: nat, n: nat)
    requires Shallow(entries, root, d) && n <= Work(entries, root, d)
    ensures AllShallow(entries, After(entries, root, n).queue, d)
    ensures WorkOf(entries, After(entries, root, n).queue, d) == Work(entries, root, d) - n
  {
    if n == 0 {
      OneRoot(entries, root, d);
    } else {
      EndsInTime(entries, root, d, n - 1);
      TurnWorks(entries, After(entries, root, n - 1), d);
    }
  }

  lemma OneRoot(entries: seq<Entry>, root: string, d: nat)
    requires Shallow(entries, root, d)
    ensures AllShallow(entries, [root], d) && WorkOf(entries, [root], d) == Work(entries, root, d)
  {
  }

  // ---------------------------------------------------------------------------------------------
  // When the walk ends
  // ---------------------------------------------------------------------------------------------

  /** A chain of reply links: each id answers the one before. */
  ghost predicate IsChain(entries: seq<Entry>, chain: seq<string>) {
    forall i, j :: 0 <= i && j == i + 1 < |chain| ==> Answers(entries, chain[j], chain[i])
  }

  lemma {:induction false} ChainReaches(entries: seq<Entry>, chain: seq<string>, i: nat, j: nat)
    requires IsChain(entries, chain) && i <= j < |chain|
    ensures Reaches(entries, chain[i], chain[j], j - i)
    decreases j - i
  {
    if i < j {
      var next := i + 1;
      assert Answers(entries, chain[next], chain[i]);
      ChainReaches(entries, chain, next, j);
    }
  }

  /** An id that is not shallow starts a chain that long. */
  lemma {:induction false} LongChain(entries: seq<Entry>, id: string, d: nat) returns (chain: seq<string>)
    requires !Shallow(entries, id, d)
    ensures |chain| == d + 2 && chain[0] == id && IsChain(entries, chain)
    decreases d
  {
    var k :| Answers(entries, k, id) && (d == 0 || !Shallow(entries, k, d - 1));
    if d == 0 {
      chain := [id, k];
    } else {
      var rest := LongChain(entries, k, d - 1);
      chain := [id] + rest;
      forall i, j | 0 <= i && j == i + 1 < |chain| ensures Answers(entries, chain[j], chain[i]) {
        assert i > 0 ==> Answers(entries, rest[j - 1], rest[i - 1]);
      }
    }
  }

  lemma AnswerIsComment(entries: seq<Entry>, id: string, to: string)
    requires Answers(entries, id, to)
    ensures id in CommentIds(entries)
  {
    KidsFacts(entries, to, |entries|);
    assert entries[..|entries|] == entries;
    var found := Replies(entries, to);
    var i :| 0 <= i < |found| && found[i].id == id;
    assert found[i] in found;
  }

  /** Chains that pass more ids than there are comments pass one twice. */
  lemma ShallowUnlessEndless(entries: seq<Entry>, root: string)
    requires !Endless(entries, root)
    ensures Shallow(entries, root, |CommentIds(entries)|)
  {
    var d := |CommentIds(entries)|;
    if !Shallow(entries, root, d) {
      var chain := LongChain(entries, root, d);
      forall x | x in chain[1..] ensures x in CommentIds(entries) {
        var j :| 1 <= j < |chain| && chain[j] == x;
        var i := j - 1;
        AnswerIsComment(entries, chain[j], chain[i]);
      }
      if Distinct(chain[1..]) {
        DistinctFits(chain[1..], CommentIds(entries));
      }
      var i, j :| 0 <= i < j < |chain[1..]| && chain[1..][i] == chain[1..][j];
      TwiceOnChain(entries, chain, i + 1, j + 1);
    }
  }

  lemma TwiceOnChain(entries: seq<Entry>, chain: seq<string>, i: nat, j: nat)
    requires IsChain(entries, chain) && i < j < |chain| && chain[i] == chain[j]
    ensures Endless(entries, chain[0])
  {
    ChainReaches(entries, chain, i, j);
    ChainReaches(entries, chain, 0, i);
    assert OnCycle(entries, chain[i]);
  }

  /** The walk ends exactly if no id that reply links lead to leads back to itself. */
  lemma EndsExactly(entries: seq<Entry>, root: string)
    ensures Ends(entries, root) <==> !Endless(entries, root)
  {
    if Endless(entries, root) {
      forall n: nat, out ensures !EndsWith(entries, root, n, out) {
        var id := EndlessStays(entries, root, n);
      }
    } else {
      ShallowUnlessEndless(entries, root);
      var d := |CommentIds(entries)|;
      var n := Work(entries, root, d);
      EndsInTime(entries, root, d, n);
      assert After(entries, root, n).queue == [];
      assert EndsWith(entries, root, n, After(entries, root, n).out);
      assert IsWalk(entries, root, After(entries, root, n).out);
    }
  }

  // ---------------------------------------------------------------------------------------------
  // What a finished walk is
  // ---------------------------------------------------------------------------------------------

  /** The layout the walk keeps, whatever the ids: the queue is what has been found but not looked up. */
  ghost predicate Kept(entries: seq<Entry>, root: string, w: Walk, up: seq<nat>, done: nat) {
    Layout(entries, root, w.out, up, done) && w.queue == Visits(root, w.out)[done..]
  }

  lemma {:induction false} KeptAlong(entries: seq<Entry>, root: Entry, n: nat) returns (up: seq<nat>, done: nat)
    ensures Kept(entries, root.id, After(entries, root.id, n), up, done)
  {
    if n == 0 {
      up, done := [], 0;
    } else {
      up, done := KeptAlong(entries, root, n - 1);
      var w := After(entries, root.id, n - 1);
      if w.queue != [] {
        var more := LayoutGrows(entries, root, w.out, up, done);
        VisitsGrow(root.id, w.out, Replies(entries, w.queue[0]), done);
        up, done := more, done + 1;
      }
    }
  }

  lemma VisitsGrow(root: string, out: seq<Entry>, found: seq<Entry>, done: nat)
    requires done <= |out|
    ensures Visits(root, out)[done..][1..] + Ids(found) == Visits(root, out + found)[done + 1..]
  {
    var a, b := Visits(root, out)[done..][1..] + Ids(found), Visits(root, out + found)[done + 1..];
    forall k | 0 <= k < |a| ensures a[k] == b[k] {
    }
  }

  /** A finished walk has looked up everything it found. */
  lemma WalkIsThread(entries: seq<Entry>, root: Entry, out: seq<Entry>)
    requires IsWalk(entries, root.id, out)
    ensures IsThread(entries, root.id, out)
  {
    var n: nat :| EndsWith(entries, root.id, n, out);
    var up, done := KeptAlong(entries, root, n);
    assert |Visits(root.id, out)[done..]| == 0;
  }

  // ---------------------------------------------------------------------------------------------
  // The loops
  // ---------------------------------------------------------------------------------------------

  /** The map the second pass builds. */
  ghost predicate IsChildren(entries: seq<Entry>, n: nat, children: map<string, seq<Entry>>)
    requires n <= |entries|
  {
    forall pid :: (pid in children ==> children[pid] == Kids(entries, pid, n)) &&
      (pid !in children ==> Kids(entries, pid, n) == [])
  }

  method CollectDescendants(ghost entries: seq<Entry>, children: map<string, seq<Entry>>, parentId: string)
    returns (out: seq<Entry>)
    requires IsChildren(entries, |entries|, children) && !Endless(entries, parentId)
    ensures IsWalk(entries, parentId, out)
  {
    out := [];
    var queue := [parentId];
    ghost var d, turns := |CommentIds(entries)|, 0;
    ShallowUnlessEndless(entries, parentId);
    while |queue| > 0
      invariant Walk(queue, out) == After(entries, parentId, turns)
      invariant AllShallow(entries, queue, d)
      decreases WorkOf(entries, queue, d)
    {
      TurnWorks(entries, Walk(queue, out), d);
      queue, out := LookUp(entries, children, queue, out);
      turns := turns + 1;
    }
    assert EndsWith(entries, parentId, turns, out);
  }

  /** One turn of the loop. */
  method LookUp(ghost entries: seq<Entry>, children: map<string, seq<Entry>>, queue: seq<string>, out: seq<Entry>)
    returns (rest: seq<string>, more: seq<Entry>)
    requires queue != [] && IsChildren(entries, |entries|, children)
    ensures Walk(rest, more) == Turn(entries, Walk(queue, out))
  {
    var pid := queue[0];
    rest, more := queue[1..], out;
    if pid in children {
      rest, more := PushAll(rest, more, children[pid]);
    } else {
      assert Ids(Replies(entries, pid)) == [];
    }
  }

  /** The inner loop over the replies found. */
  method PushAll(queue: seq<string>, out: seq<Entry>, found: seq<Entry>) returns (longer: seq<string>, more: seq<Entry>)
    ensures longer == queue + Ids(found) && more == out + found
  {
    longer, more := queue, out;
    for k := 0 to |found|
      invariant longer == queue + Ids(found[..k]) && more == out + found[..k]
    {
      assert Ids(found[..k + 1]) == Ids(found[..k]) + [found[k].id];
      more := more + [found[k]];
      longer := longer + [found[k].id];
    }
    assert found[..|found|] == found;
  }

  ghost predicate IsWalkRow(entries: seq<Entry>, e: Entry, row: Row) {
    row.entry == e && if e.comment then IsWalk(entries, e.id, row.replies) else row.replies == []
  }

  /** One row per top-level entry, in input order, each with the outcome of its walk. */
  ghost predicate AreWalkRows(entries: seq<Entry>, rows: seq<Row>) {
    && |rows| == |TopLevel(entries, |entries|)|
    && forall k :: 0 <= k < |rows| ==> IsWalkRow(entries, TopLevel(entries, |entries|)[k], rows[k])
  }

  method BuildTimelineRows(entries: seq<Entry>) returns (rows: seq<Row>)
    requires forall e :: e in entries && e.comment && !Nested(entries, e) ==> !Endless(entries, e.id)
    ensures AreWalkRows(entries, rows)
  {
    var topLevel, children := Sort(entries);
    rows := [];
    for i := 0 to |topLevel|
      invariant |rows| == i
      invariant forall k :: 0 <= k < i ==> IsWalkRow(entries, topLevel[k], rows[k])
    {
      TopLevelIsNotNested(entries, i);
      var row := BuildRow(entries, children, topLevel[i]);
      rows := rows + [row];
    }
  }

  lemma TopLevelIsNotNested(entries: seq<Entry>, i: nat)
    requires i < |TopLevel(entries, |entries|)|
    ensures var e := TopLevel(entries, |entries|)[i]; e in entries && !Nested(entries, e)
  {
    TopLevelFacts(entries, |entries|);
    assert entries[..|entries|] == entries;
    assert TopLevel(entries, |entries|)[i] in TopLevel(entries, |entries|);
  }

  /** One row, with its walk if it is a comment. */
  method BuildRow(ghost entries: seq<Entry>, children: map<string, seq<Entry>>, e: Entry) returns (row: Row)
    requires IsChildren(entries, |entries|, children) && (e.comment ==> !Endless(entries, e.id))
    ensures IsWalkRow(entries, e, row)
  {
    var replies := [];
    if e.comment {
      replies := CollectDescendants(entries, children, e.id);
    }
    row := Row(e, replies);
  }

  /** The two passes that tell top-level entries from replies. */
  method Sort(entries: seq<Entry>) returns (topLevel: seq<Entry>, children: map<string, seq<Entry>>)
    ensures topLevel == TopLevel(entries, |entries|) && IsChildren(entries, |entries|, children)
  {
    var commentIds: set<string> := {};
    for i := 0 to |entries|
      invariant commentIds == CommentIds(entries[..i])
    {
      assert entries[..i + 1] == entries[..i] + [entries[i]];
      if entries[i].comment {
        commentIds := commentIds + {entries[i].id};
      }
    }
    assert entries[..|entries|] == entries;
    topLevel, children := [], map[];
    for i := 0 to |entries|
      invariant topLevel == TopLevel(entries, i)
      invariant IsChildren(entries, i, children)
    {
      var e := entries[i];
      if e.comment && e.parentId.Some? && e.parentId.value != "" && e.parentId.value in commentIds {
        var list := if e.parentId.value in children then children[e.parentId.value] else [];
        children := children[e.parentId.value := list + [e]];
      } else {
        topLevel := topLevel + [e];
      }
    }
  }

  // ---------------------------------------------------------------------------------------------
  // What shared ids do
  // ---------------------------------------------------------------------------------------------

  /** Two comments with one id, the second answering that id: the walk never ends. */
  lemma SharedIdNeverEnds()
    ensures var twice := [Entry(true, "a", None, "first"), Entry(true, "a", Some("a"), "second")];
      !Nested(twice, twice[0]) && !Ends(twice, "a")
  {
    var twice := [Entry(true, "a", None, "first"), Entry(true, "a", Some("a"), "second")];
    assert twice[0] in twice;
    assert CommentIds(twice) == {"a"};
    assert Kids(twice, "a", 1) == [];
    assert Replies(twice, "a") == [twice[1]];
    assert Ids(Replies(twice, "a"))[0] == "a";
    assert Answers(twice, "a", "a");
    assert Reaches(twice, "a", "a", 0) && Reaches(twice, "a", "a", 1);
    EndsExactly(twice, "a");
  }

  /** Two replies with one id and one answer to that id: the walk ends, and puts the answer out twice. */
  lemma SharedIdShowsTwice(r: Entry, a: Entry, x: Entry, b: Entry)
    requires r == Entry(true, "r", None, "") && a == Entry(true, "a", Some("r"), "one")
    requires x == Entry(true, "a", Some("r"), "two") && b == Entry(true, "b", Some("a"), "")
    ensures IsWalk([r, a, x, b], "r", [a, x, b, b])
  {
    var es := [r, a, x, b];
    FourReplies(es);
    var w0, w1, w2 := Walk(["r"], []), Walk(["a", "a"], [a, x]), Walk(["a", "b"], [a, x, b]);
    var w3, w4, w5 := Walk(["b", "b"], [a, x, b, b]), Walk(["b"], [a, x, b, b]), Walk([], [a, x, b, b]);
    TurnIs(es, w0, [a, x], w1);
    TurnIs(es, w1, [b], w2);
    TurnIs(es, w2, [b], w3);
    TurnIs(es, w3, [], w4);
    TurnIs(es, w4, [], w5);
    FiveTurns(es, "r", w0, w1, w2, w3, w4, w5);
    assert EndsWith(es, "r", 5, [a, x, b, b]);
  }

  lemma TurnIs(es: seq<Entry>, w: Walk, found: seq<Entry>, next: Walk)
    requires w.queue != [] && Replies(es, w.queue[0]) == found && |found| <= 2
    requires next.out == w.out + found && |next.queue| == |w.queue| - 1 + |found|
    requires forall k :: 0 <= k < |w.queue| - 1 ==> next.queue[k] == w.queue[k + 1]
    requires forall k :: 0 <= k < |found| ==> next.queue[|w.queue| - 1 + k] == found[k].id
    ensures Turn(es, w) == next
  {
    assert w.queue[1..] + Ids(found) == next.queue;
  }

  lemma FiveTurns(es: seq<Entry>, root: string, w0: Walk, w1: Walk, w2: Walk, w3: Walk, w4: Walk, w5: Walk)
    requires w0 == Walk([root], []) && Turn(es, w0) == w1 && Turn(es, w1) == w2 && Turn(es, w2) == w3
    requires Turn(es, w3) == w4 && Turn(es, w4) == w5
    ensures After(es, root, 5) == w5
  {
    assert After(es, root, 1) == w1;
    assert After(es, root, 2) == w2;
    assert After(es, root, 3) == w3;
    assert After(es, root, 4) == w4;
  }

  lemma FourReplies(es: seq<Entry>)
    requires |es| == 4 && forall i :: 0 <= i < 4 ==> es[i].comment
    requires es[0].id == "r" && es[0].parentId == None && es[1].id == es[2].id == "a" && es[3].id == "b"
    requires es[1].parentId == es[2].parentId == Some("r") && es[3].parentId == Some("a")
    ensures Replies(es, "r") == [es[1], es[2]] && Replies(es, "a") == [es[3]] && Replies(es, "b") == []
  {
    assert forall i :: 0 <= i < 4 ==> es[i] in es;
    assert "r" in CommentIds(es) && "a" in CommentIds(es);
    KidsOfFour(es, "r");
    KidsOfFour(es, "a");
    KidsOfFour(es, "b");
  }

  lemma KidsOfFour(es: seq<Entry>, id: string)
    requires |es| == 4
    ensures Replies(es, id) == OnlyKid(es, id, 0) + OnlyKid(es, id, 1) + OnlyKid(es, id, 2) + OnlyKid(es, id, 3)
  {
    assert Kids(es, id, 0) == [];
    assert Kids(es, id, 1) == OnlyKid(es, id, 0);
    assert Kids(es, id, 2) == OnlyKid(es, id, 0) + OnlyKid(es, id, 1);
    assert Kids(es, id, 3) == OnlyKid(es, id, 0) + OnlyKid(es, id, 1) + OnlyKid(es, id, 2);
  }

  function OnlyKid(es: seq<Entry>, id: string, i: nat): seq<Entry>
    requires i < |es|
  {
    if Nested(es, es[i]) && es[i].parentId.value == id then [es[i]] else []
  }
}
