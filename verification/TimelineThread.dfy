/**
 * apps/mobile/lib/timeline-thread.ts: a timeline whose comments point to their parents is folded into rows, one
 * per top-level entry, each bundling all its descendants by a breadth-first walk that keeps no visited set.
 */
module TimelineThread {
  import opened Common

  datatype Entry = Entry(comment: bool, id: string, parentId: Option<string>, body: string)
  datatype Row = Row(entry: Entry, replies: seq<Entry>)

  function CommentIds(entries: seq<Entry>): set<string> {
    set e | e in entries && e.comment :: e.id
  }

  /** A comment whose (truthy) parent is a comment of the batch; everything else becomes a row. */
  predicate Nested(entries: seq<Entry>, e: Entry) {
    e.comment && e.parentId.Some? && e.parentId.value != "" && e.parentId.value in CommentIds(entries)
  }

  ghost predicate UniqueComments(entries: seq<Entry>) {
    forall i, j :: 0 <= i < j < |entries| && entries[i].comment && entries[j].comment ==> entries[i].id != entries[j].id
  }

  /** The top-level entries among the first n, in input order. */
  function TopLevel(entries: seq<Entry>, n: nat): seq<Entry>
    requires n <= |entries|
  {
    if n == 0 then []
    else TopLevel(entries, n - 1) + if Nested(entries, entries[n - 1]) then [] else [entries[n - 1]]
  }

  /** The replies to `pid` among the first n entries, in input order. */
  function Kids(entries: seq<Entry>, pid: string, n: nat): seq<Entry>
    requires n <= |entries|
  {
    if n == 0 then []
    else Kids(entries, pid, n - 1)
         + if Nested(entries, entries[n - 1]) && entries[n - 1].parentId.value == pid then [entries[n - 1]] else []
  }

  /** a stands before b in the input. */
  ghost predicate Precedes(entries: seq<Entry>, a: Entry, b: Entry) {
    exists i, j :: 0 <= i < j < |entries| && entries[i] == a && entries[j] == b
  }

  lemma {:induction false} KidsFacts(entries: seq<Entry>, pid: string, n: nat)
    requires n <= |entries|
    ensures forall e :: e in Kids(entries, pid, n) <==> e in entries[..n] && Nested(entries, e) && e.parentId.value == pid
    ensures forall i, j :: 0 <= i < j < |Kids(entries, pid, n)| ==>
              Precedes(entries, Kids(entries, pid, n)[i], Kids(entries, pid, n)[j])
  {
    if n > 0 {
      KidsFacts(entries, pid, n - 1);
      var front, last := Kids(entries, pid, n - 1), entries[n - 1];
      assert entries[..n] == entries[..n - 1] + [last];
      forall i | 0 <= i < |front| ensures Precedes(entries, front[i], last) {
        EarlierPrecedes(entries, n - 1, front[i]);
      }
    }
  }

  lemma EarlierPrecedes(entries: seq<Entry>, n: nat, e: Entry)
    requires n < |entries| && e in entries[..n]
    ensures Precedes(entries, e, entries[n])
  {
    var i :| 0 <= i < n && entries[..n][i] == e;
    assert entries[i] == e;
  }

  // ---------------------------------------------------------------------------------------------
  // The breadth-first walk
  // ---------------------------------------------------------------------------------------------

  /** The ids whose replies the walk looks up, in order: the root, then every reply found. */
  function Visits(root: string, out: seq<Entry>): (r: seq<string>)
    ensures |r| == |out| + 1 && r[0] == root
    ensures forall i :: 0 <= i < |out| ==> r[i + 1] == out[i].id
  {
    [root] + seq(|out|, i requires 0 <= i < |out| => out[i].id)
  }

  /**
   * `out` lists replies found while the first `done` ids were looked up; up[i] is the position, among the ids
   * visited, of out[i]'s parent.  Parents come first, their order is kept, siblings keep input order, and every
   * reply to a visited id is there.
   */
  ghost predicate Layout(entries: seq<Entry>, root: string, out: seq<Entry>, up: seq<nat>, done: nat) {
    && |up| == |out| && done <= |out| + 1
    && (forall i :: 0 <= i < |out| ==> Placed(entries, root, out, up, done, i))
    && (forall i, j :: 0 <= i < j < |out| ==> InOrder(entries, out, up, i, j))
    && (forall k :: 0 <= k < done ==> RepliesIn(entries, Visits(root, out)[k], out))
  }

  ghost predicate RepliesIn(entries: seq<Entry>, pid: string, out: seq<Entry>) {
    forall e :: e in entries && Nested(entries, e) && e.parentId.value == pid ==> e in out
  }

  ghost predicate InOrder(entries: seq<Entry>, out: seq<Entry>, up: seq<nat>, i: nat, j: nat)
    requires i < j < |out| == |up|
  {
    up[i] <= up[j] && (up[i] == up[j] ==> Precedes(entries, out[i], out[j]))
  }

  ghost predicate Placed(entries: seq<Entry>, root: string, out: seq<Entry>, up: seq<nat>, done: nat, i: nat)
    requires i < |out| == |up|
  {
    && up[i] <= i && up[i] < done
    && out[i] in entries && Nested(entries, out[i])
    && out[i].parentId.value == Visits(root, out)[up[i]]
  }

  /** The finished walk. */
  ghost predicate IsThread(entries: seq<Entry>, root: string, out: seq<Entry>) {
    exists up, done :: done == |out| + 1 && Layout(entries, root, out, up, done)
  }

  /** The root is no reply's id: it is a top-level comment, and ids are unique. */
  ghost predicate RootOf(entries: seq<Entry>, root: Entry) {
    root in entries && root.comment && !Nested(entries, root)
  }

  lemma SameCommentSameId(entries: seq<Entry>, a: Entry, b: Entry)
    requires UniqueComments(entries) && a in entries && b in entries && a.comment && b.comment && a.id == b.id
    ensures a == b
  {
    var i :| 0 <= i < |entries| && entries[i] == a;
    var j :| 0 <= j < |entries| && entries[j] == b;
  }

  /** No id is ever visited twice, although the walk keeps no visited set. */
  lemma {:induction false} VisitsDistinct(entries: seq<Entry>, root: Entry, out: seq<Entry>, up: seq<nat>, done: nat)
    requires UniqueComments(entries) && RootOf(entries, root) && Layout(entries, root.id, out, up, done)
    ensures Distinct(Visits(root.id, out)) && Distinct(out)
    ensures |out| <= |entries|
  {
    forall i, j | 0 <= i < j < |out| ensures out[i] != out[j] && out[i].id != out[j].id {
      AppearsOnce(entries, root, out, up, done, i, j);
    }
    forall i | 0 <= i < |out| ensures out[i].id != root.id {
      VisitsRootOnce(entries, root, out, up, done, i);
    }
    var v := Visits(root.id, out);
    forall i, j | 0 <= i < j < |v| ensures v[i] != v[j] {
      assert v[j] == out[j - 1].id && (i > 0 ==> v[i] == out[i - 1].id);
    }
    forall e | e in out ensures e in Elements(entries) {
      var i :| 0 <= i < |out| && out[i] == e;
      assert Placed(entries, root.id, out, up, done, i);
    }
    DistinctFits(out, Elements(entries));
    SetNoLarger(entries);
  }

  lemma {:induction false} SetNoLarger<T>(s: seq<T>)
    ensures |Elements(s)| <= |s|
  {
    if s == [] {
      assert Elements(s) == {};
    } else {
      SetNoLarger(s[1..]);
      assert Elements(s) == {s[0]} + Elements(s[1..]);
    }
  }

  lemma NotBeforeItself(entries: seq<Entry>, e: Entry)
    requires UniqueComments(entries) && e.comment
    ensures !Precedes(entries, e, e)
  {
  }

  lemma {:induction false} AppearsOnce(entries: seq<Entry>, root: Entry, out: seq<Entry>, up: seq<nat>, done: nat,
                                       i: nat, j: nat)
    requires UniqueComments(entries) && RootOf(entries, root) && Layout(entries, root.id, out, up, done)
    requires i < j < |out|
    ensures out[i].id != out[j].id
    decreases j
  {
    if out[i].id == out[j].id {
      SameFindSameParent(entries, root, out, up, done, i, j);
      if up[i] > 0 {
        AppearsOnce(entries, root, out, up, done, up[i] - 1, up[j] - 1);
      } else {
        VisitsRootOnce(entries, root, out, up, done, up[j] - 1);
      }
    }
  }

  /** A reply found twice would have to be found from two visits of one id. */
  lemma SameFindSameParent(entries: seq<Entry>, root: Entry, out: seq<Entry>, up: seq<nat>, done: nat, i: nat, j: nat)
    requires UniqueComments(entries) && RootOf(entries, root) && Layout(entries, root.id, out, up, done)
    requires i < j < |out| && out[i].id == out[j].id
    ensures up[i] < up[j] <= j
    ensures out[up[j] - 1].id == if up[i] == 0 then root.id else out[up[i] - 1].id
  {
    assert Placed(entries, root.id, out, up, done, i) && Placed(entries, root.id, out, up, done, j);
    SameCommentSameId(entries, out[i], out[j]);
    NotBeforeItself(entries, out[i]);
    assert InOrder(entries, out, up, i, j);
  }

  lemma VisitsRootOnce(entries: seq<Entry>, root: Entry, out: seq<Entry>, up: seq<nat>, done: nat, i: nat)
    requires UniqueComments(entries) && RootOf(entries, root) && Layout(entries, root.id, out, up, done)
    requires i < |out|
    ensures out[i].id != root.id
  {
    assert Placed(entries, root.id, out, up, done, i);
    if out[i].id == root.id { SameCommentSameId(entries, out[i], root); }
  }

  /** Where the new replies stand. */
  lemma PlacesGrow(entries: seq<Entry>, root: Entry, out: seq<Entry>, up: seq<nat>, done: nat,
                   kids: seq<Entry>, more: seq<nat>, next: nat)
    requires next == done + 1
    requires Layout(entries, root.id, out, up, done) && done <= |out|
    requires kids == Kids(entries, Visits(root.id, out)[done], |entries|)
    requires |more| == |out| + |kids|
    requires forall i :: 0 <= i < |more| ==> more[i] == if i < |out| then up[i] else done
    ensures forall i :: 0 <= i < |more| ==> Placed(entries, root.id, out + kids, more, next, i)
  {
    KidsFacts(entries, Visits(root.id, out)[done], |entries|);
    assert entries[..|entries|] == entries;
    var all := out + kids;
    forall i | 0 <= i < |all| ensures Placed(entries, root.id, all, more, next, i) {
      if i < |out| {
        assert Placed(entries, root.id, out, up, done, i);
        VisitsAlike(root.id, out, kids, up[i]);
      } else {
        assert kids[i - |out|] in kids;
        VisitsAlike(root.id, out, kids, done);
      }
    }
  }

  lemma VisitsAlike(root: string, out: seq<Entry>, kids: seq<Entry>, k: nat)
    requires k <= |out|
    ensures Visits(root, out + kids)[k] == Visits(root, out)[k]
  {
  }

  lemma OrderGrows(entries: seq<Entry>, root: Entry, out: seq<Entry>, up: seq<nat>, done: nat, kids: seq<Entry>, more: seq<nat>)
    requires Layout(entries, root.id, out, up, done) && done <= |out|
    requires kids == Kids(entries, Visits(root.id, out)[done], |entries|)
    requires |more| == |out| + |kids|
    requires forall i :: 0 <= i < |more| ==> more[i] == if i < |out| then up[i] else done
    ensures forall i, j :: 0 <= i < j < |more| ==> InOrder(entries, out + kids, more, i, j)
  {
    KidsFacts(entries, Visits(root.id, out)[done], |entries|);
    var all := out + kids;
    forall i, j | 0 <= i < j < |more| ensures InOrder(entries, all, more, i, j) {
      if j < |out| {
        assert InOrder(entries, out, up, i, j);
      } else if i < |out| {
        assert Placed(entries, root.id, out, up, done, i);
      } else {
        assert Precedes(entries, kids[i - |out|], kids[j - |out|]);
      }
    }
  }

  /** Looking up one more id appends its replies and keeps the layout. */
  lemma LayoutGrows(entries: seq<Entry>, root: Entry, out: seq<Entry>, up: seq<nat>, done: nat) returns (more: seq<nat>)
    requires Layout(entries, root.id, out, up, done) && done <= |out|
    ensures var kids := Kids(entries, Visits(root.id, out)[done], |entries|);
      Layout(entries, root.id, out + kids, more, done + 1)
  {
    var kids := Kids(entries, Visits(root.id, out)[done], |entries|);
    more := up + seq(|kids|, i => done);
    PlacesGrow(entries, root, out, up, done, kids, more, done + 1);
    OrderGrows(entries, root, out, up, done, kids, more);
    KidsFacts(entries, Visits(root.id, out)[done], |entries|);
    assert entries[..|entries|] == entries;
    forall k | 0 <= k < done + 1 ensures RepliesIn(entries, Visits(root.id, out + kids)[k], out + kids) {
      assert Visits(root.id, out + kids)[k] == Visits(root.id, out)[k];
      assert k < done ==> RepliesIn(entries, Visits(root.id, out)[k], out);
    }
  }

  lemma {:induction false} TopLevelFacts(entries: seq<Entry>, n: nat)
    requires n <= |entries|
    ensures forall e :: e in TopLevel(entries, n) <==> e in entries[..n] && !Nested(entries, e)
  {
    if n > 0 {
      TopLevelFacts(entries, n - 1);
      assert entries[..n] == entries[..n - 1] + [entries[n - 1]];
    }
  }

  ghost predicate IsRow(entries: seq<Entry>, e: Entry, row: Row) {
    row.entry == e && if e.comment then IsThread(entries, e.id, row.replies) else row.replies == []
  }

  /** One row per top-level entry, in input order, each with its thread. */
  ghost predicate IsRows(entries: seq<Entry>, rows: seq<Row>) {
    && |rows| == |TopLevel(entries, |entries|)|
    && forall k :: 0 <= k < |rows| ==> IsRow(entries, TopLevel(entries, |entries|)[k], rows[k])
  }

  // ---------------------------------------------------------------------------------------------
  // Ancestors
  // ---------------------------------------------------------------------------------------------

  /** The comment the reply answers. */
  ghost function Parent(entries: seq<Entry>, e: Entry): (p: Entry)
    requires Nested(entries, e)
    ensures p in entries && p.comment && p.id == e.parentId.value
  {
    var p :| p in entries && p.comment && p.id == e.parentId.value;
    p
  }

  /** n steps up the parent chain, or None when the chain ends earlier. */
  ghost function Ancestor(entries: seq<Entry>, e: Entry, n: nat): Option<Entry>
    decreases n
  {
    if n == 0 then Some(e)
    else if Nested(entries, e) then Ancestor(entries, Parent(entries, e), n - 1)
    else None
  }

  ghost predicate Descends(entries: seq<Entry>, e: Entry, root: Entry) {
    exists n :: n > 0 && Ancestor(entries, e, n) == Some(root)
  }

  /** The parent chain ends at an entry that becomes a row. */
  ghost predicate ReachesTop(entries: seq<Entry>, e: Entry) {
    exists n: nat :: EndsAt(entries, e, n)
  }

  ghost predicate EndsAt(entries: seq<Entry>, e: Entry, n: nat) {
    Ancestor(entries, e, n).Some? && !Nested(entries, Ancestor(entries, e, n).value)
  }

  /** The parent chain comes back to an entry it has passed. */
  ghost predicate EntersCycle(entries: seq<Entry>, e: Entry) {
    exists n: nat, m: nat :: n < m && Ancestor(entries, e, n).Some? && Ancestor(entries, e, n) == Ancestor(entries, e, m)
  }

  lemma {:induction false} AncestorStep(entries: seq<Entry>, e: Entry, n: nat)
    ensures Ancestor(entries, e, n + 1) ==
            match Ancestor(entries, e, n)
            case None => None
            case Some(a) => if Nested(entries, a) then Some(Parent(entries, a)) else None
    decreases n
  {
    if n > 0 && Nested(entries, e) {
      AncestorStep(entries, Parent(entries, e), n - 1);
    }
  }

  lemma {:induction false} AncestorIn(entries: seq<Entry>, e: Entry, n: nat)
    requires e in entries && Ancestor(entries, e, n).Some?
    ensures Ancestor(entries, e, n).value in entries
    decreases n
  {
    if n > 0 {
      AncestorIn(entries, Parent(entries, e), n - 1);
    }
  }

  /** A chain longer than the input repeats itself; one that ends does not. */
  lemma TopOrCycle(entries: seq<Entry>, e: Entry)
    requires e in entries
    ensures ReachesTop(entries, e) <==> !EntersCycle(entries, e)
  {
    if ReachesTop(entries, e) {
      var n: nat :| EndsAt(entries, e, n);
      forall i: nat, j: nat | i < j && Ancestor(entries, e, i).Some? ensures Ancestor(entries, e, i) != Ancestor(entries, e, j) {
        if Ancestor(entries, e, i) == Ancestor(entries, e, j) {
          Periodic(entries, e, i, j, n);
        }
      }
    } else {
      var chain := ChainOf(entries, e, |entries| + 1);
      if Distinct(chain) {
        DistinctFits(chain, Elements(entries));
        SetNoLarger(entries);
      }
      var i, j :| 0 <= i < j < |chain| && chain[i] == chain[j];
      assert Ancestor(entries, e, i) == Some(chain[i]) && Ancestor(entries, e, j) == Some(chain[j]);
    }
  }

  /** The first n entries of a chain that never ends. */
  lemma {:induction false} ChainOf(entries: seq<Entry>, e: Entry, n: nat) returns (chain: seq<Entry>)
    requires e in entries && !ReachesTop(entries, e)
    ensures |chain| == n
    ensures forall i :: 0 <= i < n ==> Ancestor(entries, e, i) == Some(chain[i]) && chain[i] in entries
  {
    chain := [];
    while |chain| < n
      invariant |chain| <= n
      invariant Ancestor(entries, e, |chain|).Some?
      invariant forall i :: 0 <= i < |chain| ==> Ancestor(entries, e, i) == Some(chain[i]) && chain[i] in entries
    {
      AncestorIn(entries, e, |chain|);
      assert !EndsAt(entries, e, |chain|);
      AncestorStep(entries, e, |chain|);
      chain := chain + [Ancestor(entries, e, |chain|).value];
    }
  }

  /** A repeated ancestor means the chain has an ancestor at every height. */
  lemma {:induction false} Periodic(entries: seq<Entry>, e: Entry, i: nat, j: nat, n: nat)
    requires i < j && Ancestor(entries, e, i).Some? && Ancestor(entries, e, i) == Ancestor(entries, e, j)
    ensures Ancestor(entries, e, n).Some? && Nested(entries, Ancestor(entries, e, n).value)
    decreases n
  {
    if n < j {
      DownChain(entries, e, n, j);
    } else {
      Shift(entries, e, i, j, n - j);
      Periodic(entries, e, i, j, n - (j - i));
    }
  }

  lemma {:induction false} DownChain(entries: seq<Entry>, e: Entry, n: nat, j: nat)
    requires n < j && Ancestor(entries, e, j).Some?
    ensures Ancestor(entries, e, n).Some? && Nested(entries, Ancestor(entries, e, n).value)
  {
    AncestorStep(entries, e, j - 1);
    if n < j - 1 {
      DownChain(entries, e, n, j - 1);
    }
  }

  lemma {:induction false} Shift(entries: seq<Entry>, e: Entry, i: nat, j: nat, k: nat)
    requires Ancestor(entries, e, i) == Ancestor(entries, e, j)
    ensures Ancestor(entries, e, i + k) == Ancestor(entries, e, j + k)
  {
    if k > 0 {
      Shift(entries, e, i, j, k - 1);
      AncestorStep(entries, e, i + k - 1);
      AncestorStep(entries, e, j + k - 1);
    }
  }

  // ---------------------------------------------------------------------------------------------
  // What a row's thread is
  // ---------------------------------------------------------------------------------------------

  /** The depth of out[i] below the root. */
  ghost function Depth(up: seq<nat>, i: nat): nat
    requires i < |up| && forall k :: 0 <= k < |up| ==> up[k] <= k
    decreases i
  {
    if up[i] == 0 then 1 else 1 + Depth(up, up[i] - 1)
  }

  ghost predicate Finished(entries: seq<Entry>, root: Entry, out: seq<Entry>, up: seq<nat>, done: nat) {
    UniqueComments(entries) && RootOf(entries, root) && done == |out| + 1 && Layout(entries, root.id, out, up, done)
  }

  lemma ParentPlace(entries: seq<Entry>, root: Entry, out: seq<Entry>, up: seq<nat>, done: nat, i: nat)
    requires Finished(entries, root, out, up, done) && i < |out|
    ensures up[i] <= i && Nested(entries, out[i])
    ensures Parent(entries, out[i]) == if up[i] == 0 then root else out[up[i] - 1]
  {
    assert Placed(entries, root.id, out, up, done, i);
    var p := Parent(entries, out[i]);
    if up[i] == 0 {
      SameCommentSameId(entries, p, root);
    } else {
      assert Placed(entries, root.id, out, up, done, up[i] - 1);
      SameCommentSameId(entries, p, out[up[i] - 1]);
    }
  }

  lemma {:induction false} DepthIsDistance(entries: seq<Entry>, root: Entry, out: seq<Entry>, up: seq<nat>, done: nat, i: nat)
    requires Finished(entries, root, out, up, done) && i < |out|
    requires forall k :: 0 <= k < |up| ==> up[k] <= k
    ensures Ancestor(entries, out[i], Depth(up, i)) == Some(root)
    decreases i
  {
    ParentPlace(entries, root, out, up, done, i);
    if up[i] == 0 {
      assert Ancestor(entries, root, 0) == Some(root);
    } else {
      DepthIsDistance(entries, root, out, up, done, up[i] - 1);
    }
  }

  lemma {:induction false} DepthNeverDrops(entries: seq<Entry>, root: Entry, out: seq<Entry>, up: seq<nat>, done: nat,
                                           i: nat, j: nat)
    requires Finished(entries, root, out, up, done) && i < j < |out|
    requires forall k :: 0 <= k < |up| ==> up[k] <= k
    ensures Depth(up, i) <= Depth(up, j)
    decreases j
  {
    assert InOrder(entries, out, up, i, j);
    if up[i] > 0 && up[i] < up[j] {
      DepthNeverDrops(entries, root, out, up, done, up[i] - 1, up[j] - 1);
    }
  }

  lemma {:induction false} DescendantFound(entries: seq<Entry>, root: Entry, out: seq<Entry>, up: seq<nat>, done: nat,
                                           e: Entry, n: nat)
    requires Finished(entries, root, out, up, done) && e in entries && n > 0
    requires Ancestor(entries, e, n) == Some(root)
    ensures e in out
    decreases n
  {
    var p := Parent(entries, e);
    if n == 1 {
      assert Ancestor(entries, p, 0) == Some(p);
      assert RepliesIn(entries, Visits(root.id, out)[0], out);
    } else {
      DescendantFound(entries, root, out, up, done, p, n - 1);
      var k :| 0 <= k < |out| && out[k] == p;
      assert RepliesIn(entries, Visits(root.id, out)[k + 1], out);
    }
  }

  /** a is at most as far below the root as b. */
  ghost predicate NoDeeper(entries: seq<Entry>, root: Entry, a: Entry, b: Entry) {
    exists m: nat, n: nat :: m <= n && Ancestor(entries, a, m) == Some(root) && Ancestor(entries, b, n) == Some(root)
  }

  lemma SiblingsInOrder(entries: seq<Entry>, root: Entry, out: seq<Entry>, up: seq<nat>, done: nat, i: nat, j: nat)
    requires Finished(entries, root, out, up, done) && i < j < |out| && out[i].parentId == out[j].parentId
    ensures Precedes(entries, out[i], out[j])
  {
    VisitsDistinct(entries, root, out, up, done);
    assert Placed(entries, root.id, out, up, done, i) && Placed(entries, root.id, out, up, done, j);
    assert InOrder(entries, out, up, i, j);
    var v := Visits(root.id, out);
    assert v[up[i]] == v[up[j]];
  }

  lemma ThreadMembers(entries: seq<Entry>, root: Entry, out: seq<Entry>, up: seq<nat>, done: nat, e: Entry)
    requires Finished(entries, root, out, up, done) && e in entries
    ensures e in out <==> Descends(entries, e, root)
  {
    forall i | 0 <= i < |out| ensures up[i] <= i {
      ParentPlace(entries, root, out, up, done, i);
    }
    if e in out {
      var i :| 0 <= i < |out| && out[i] == e;
      DepthIsDistance(entries, root, out, up, done, i);
    } else if Descends(entries, e, root) {
      var n :| n > 0 && Ancestor(entries, e, n) == Some(root);
      DescendantFound(entries, root, out, up, done, e, n);
    }
  }

  lemma ThreadDepths(entries: seq<Entry>, root: Entry, out: seq<Entry>, up: seq<nat>, done: nat, i: nat, j: nat)
    requires Finished(entries, root, out, up, done) && i < j < |out|
    ensures NoDeeper(entries, root, out[i], out[j])
  {
    forall k | 0 <= k < |out| ensures up[k] <= k {
      ParentPlace(entries, root, out, up, done, k);
    }
    DepthIsDistance(entries, root, out, up, done, i);
    DepthIsDistance(entries, root, out, up, done, j);
    DepthNeverDrops(entries, root, out, up, done, i, j);
  }

  /** e answers the root or something listed before position i. */
  ghost predicate AfterParent(entries: seq<Entry>, root: Entry, out: seq<Entry>, i: nat)
    requires i < |out|
  {
    Nested(entries, out[i]) && (Parent(entries, out[i]) == root || Parent(entries, out[i]) in out[..i])
  }

  lemma ThreadParents(entries: seq<Entry>, root: Entry, out: seq<Entry>, up: seq<nat>, done: nat, i: nat)
    requires Finished(entries, root, out, up, done) && i < |out|
    ensures AfterParent(entries, root, out, i)
  {
    ParentPlace(entries, root, out, up, done, i);
    if up[i] > 0 { assert out[..i][up[i] - 1] == out[up[i] - 1]; }
  }

  /**
   * The walk from a top-level comment returns each of its descendants exactly once: every reply after its parent,
   * shallower replies before deeper ones, and the replies to one comment in input order.
   */
  lemma ThreadIsDescendants(entries: seq<Entry>, root: Entry, out: seq<Entry>)
    requires UniqueComments(entries) && RootOf(entries, root) && IsThread(entries, root.id, out)
    ensures Distinct(out)
    ensures forall e :: e in out ==> e in entries && Nested(entries, e)
    ensures forall e :: e in entries ==> (e in out <==> Descends(entries, e, root))
    ensures forall i :: 0 <= i < |out| ==> AfterParent(entries, root, out, i)
    ensures forall i, j :: 0 <= i < j < |out| ==> NoDeeper(entries, root, out[i], out[j])
    ensures forall i, j :: 0 <= i < j < |out| && out[i].parentId == out[j].parentId ==> Precedes(entries, out[i], out[j])
  {
    var up, done :| done == |out| + 1 && Layout(entries, root.id, out, up, done);
    VisitsDistinct(entries, root, out, up, done);
    forall e | e in out ensures e in entries && Nested(entries, e) {
      var i :| 0 <= i < |out| && out[i] == e;
      assert Placed(entries, root.id, out, up, done, i);
    }
    forall e | e in entries ensures e in out <==> Descends(entries, e, root) {
      ThreadMembers(entries, root, out, up, done, e);
    }
    forall i | 0 <= i < |out| ensures AfterParent(entries, root, out, i) {
      ThreadParents(entries, root, out, up, done, i);
    }
    forall i, j | 0 <= i < j < |out| ensures NoDeeper(entries, root, out[i], out[j]) {
      ThreadDepths(entries, root, out, up, done, i, j);
    }
    forall i, j | 0 <= i < j < |out| && out[i].parentId == out[j].parentId ensures Precedes(entries, out[i], out[j]) {
      SiblingsInOrder(entries, root, out, up, done, i, j);
    }
  }

  // ---------------------------------------------------------------------------------------------
  // Conservation
  // ---------------------------------------------------------------------------------------------

  /** Everything the rows show. */
  function Emitted(rows: seq<Row>): multiset<Entry> {
    if rows == [] then multiset{}
    else Emitted(rows[..|rows| - 1]) + multiset{rows[|rows| - 1].entry} + multiset(rows[|rows| - 1].replies)
  }

  function InReplies(rows: seq<Row>, x: Entry): nat {
    if rows == [] then 0
    else InReplies(rows[..|rows| - 1], x) + multiset(rows[|rows| - 1].replies)[x]
  }

  lemma {:induction false} EmittedSplit(rows: seq<Row>, tops: seq<Entry>, x: Entry)
    requires |rows| == |tops| && forall k :: 0 <= k < |rows| ==> rows[k].entry == tops[k]
    ensures Emitted(rows)[x] == multiset(tops)[x] + InReplies(rows, x)
  {
    if rows != [] {
      var n := |rows| - 1;
      EmittedSplit(rows[..n], tops[..n], x);
      assert tops == tops[..n] + [tops[n]];
    }
  }

  lemma {:induction false} InNoReplies(rows: seq<Row>, x: Entry)
    requires forall k :: 0 <= k < |rows| ==> x !in rows[k].replies
    ensures InReplies(rows, x) == 0
  {
    if rows != [] {
      InNoReplies(rows[..|rows| - 1], x);
    }
  }

  lemma {:induction false} InOneRowsReplies(rows: seq<Row>, x: Entry, i: nat)
    requires i < |rows| && x in rows[i].replies && Distinct(rows[i].replies)
    requires forall k :: 0 <= k < |rows| && k != i ==> x !in rows[k].replies
    ensures InReplies(rows, x) == 1
  {
    var n := |rows| - 1;
    if i == n {
      InNoReplies(rows[..n], x);
      CountDistinct(rows[i].replies, x);
    } else {
      InOneRowsReplies(rows[..n], x, i);
    }
  }

  lemma {:induction false} CountDistinct<T>(s: seq<T>, x: T)
    requires Distinct(s) && x in s
    ensures multiset(s)[x] == 1
  {
    var front, last := s[..|s| - 1], s[|s| - 1];
    assert s == front + [last];
    if last != x {
      CountDistinct(front, x);
    } else {
      assert x !in front;
    }
  }

  /** How often x stands among the first n entries. */
  function Times(entries: seq<Entry>, n: nat, x: Entry): nat
    requires n <= |entries|
  {
    if n == 0 then 0 else Times(entries, n - 1, x) + if entries[n - 1] == x then 1 else 0
  }

  lemma {:induction false} TimesCounts(entries: seq<Entry>, n: nat, x: Entry)
    requires n <= |entries|
    ensures multiset(entries[..n])[x] == Times(entries, n, x)
  {
    if n == 0 {
      assert entries[..0] == [];
    } else {
      TimesCounts(entries, n - 1, x);
      assert entries[..n] == entries[..n - 1] + [entries[n - 1]];
      CountSnoc(entries[..n - 1], entries[n - 1], x);
    }
  }

  /** The entries among the first n that are kept. */
  function Filter(entries: seq<Entry>, n: nat, keep: Entry -> bool): seq<Entry>
    requires n <= |entries|
  {
    if n == 0 then [] else Filter(entries, n - 1, keep) + if keep(entries[n - 1]) then [entries[n - 1]] else []
  }

  lemma {:induction false} FilterTimes(entries: seq<Entry>, n: nat, keep: Entry -> bool, x: Entry)
    requires n <= |entries|
    ensures multiset(Filter(entries, n, keep))[x] == if keep(x) then Times(entries, n, x) else 0
  {
    if n > 0 {
      FilterTimes(entries, n - 1, keep, x);
      var front, e := Filter(entries, n - 1, keep), entries[n - 1];
      CountSnoc(front, e, x);
      assert front + [] == front;
    }
  }

  lemma {:induction false} TopLevelIsFilter(entries: seq<Entry>, n: nat)
    requires n <= |entries|
    ensures TopLevel(entries, n) == Filter(entries, n, e => !Nested(entries, e))
  {
    if n > 0 {
      TopLevelIsFilter(entries, n - 1);
    }
  }

  lemma TopLevelCount(entries: seq<Entry>, x: Entry)
    ensures multiset(TopLevel(entries, |entries|))[x] == if Nested(entries, x) then 0 else multiset(entries)[x]
  {
    TopLevelIsFilter(entries, |entries|);
    FilterTimes(entries, |entries|, e => !Nested(entries, e), x);
    TimesCounts(entries, |entries|, x);
    assert entries[..|entries|] == entries;
  }

  lemma CountSnoc(s: seq<Entry>, e: Entry, x: Entry)
    ensures multiset(s + [e])[x] == multiset(s)[x] + if e == x then 1 else 0
  {
  }

  lemma {:induction false} TopLevelOrder(entries: seq<Entry>, n: nat)
    requires n <= |entries|
    ensures forall i, j :: 0 <= i < j < |TopLevel(entries, n)| ==>
              Precedes(entries, TopLevel(entries, n)[i], TopLevel(entries, n)[j])
  {
    if n > 0 {
      TopLevelOrder(entries, n - 1);
      TopLevelFacts(entries, n - 1);
      var front := TopLevel(entries, n - 1);
      forall i | 0 <= i < |front| ensures Precedes(entries, front[i], entries[n - 1]) {
        assert front[i] in entries[..n - 1];
      }
    }
  }

  /** A chain has one end. */
  lemma {:induction false} OneEnd(entries: seq<Entry>, e: Entry, m: nat, n: nat)
    requires EndsAt(entries, e, m) && EndsAt(entries, e, n)
    ensures m == n
  {
    if m < n {
      DownChain(entries, e, m, n);
    } else if n < m {
      DownChain(entries, e, n, m);
    }
  }

  /** A reply is shown once if its parent chain reaches a row's entry, and not at all otherwise. */
  lemma NestedCount(entries: seq<Entry>, rows: seq<Row>, x: Entry)
    requires UniqueComments(entries) && IsRows(entries, rows) && x in entries && Nested(entries, x)
    ensures InReplies(rows, x) == if ReachesTop(entries, x) then 1 else 0
  {
    var tops := TopLevel(entries, |entries|);
    TopLevelFacts(entries, |entries|);
    assert entries[..|entries|] == entries;
    forall k | 0 <= k < |rows| ensures x in rows[k].replies <==> Descends(entries, x, tops[k]) {
      RowHolds(entries, rows[k], tops[k], x);
    }
    if ReachesTop(entries, x) {
      var n: nat :| EndsAt(entries, x, n);
      var root := Ancestor(entries, x, n).value;
      AncestorIn(entries, x, n);
      assert root in tops;
      var i :| 0 <= i < |tops| && tops[i] == root;
      assert Ancestor(entries, x, n) == Some(root) && n > 0;
      forall k | 0 <= k < |rows| && k != i ensures x !in rows[k].replies {
        if Descends(entries, x, tops[k]) {
          OneRootRow(entries, x, n, i, k);
        }
      }
      RowHolds(entries, rows[i], root, x);
      InOneRowsReplies(rows, x, i);
    } else {
      forall k | 0 <= k < |rows| ensures x !in rows[k].replies {
        if Descends(entries, x, tops[k]) {
          var n :| n > 0 && Ancestor(entries, x, n) == Some(tops[k]);
          assert tops[k] in tops;
          assert EndsAt(entries, x, n);
        }
      }
      InNoReplies(rows, x);
    }
  }

  lemma RowHolds(entries: seq<Entry>, row: Row, top: Entry, x: Entry)
    requires UniqueComments(entries) && IsRow(entries, top, row) && x in entries && Nested(entries, x)
    requires top in entries && !Nested(entries, top)
    ensures x in row.replies <==> Descends(entries, x, top)
    ensures Distinct(row.replies)
  {
    if top.comment {
      ThreadIsDescendants(entries, top, row.replies);
    } else if Descends(entries, x, top) {
      var n :| n > 0 && Ancestor(entries, x, n) == Some(top);
      AncestorStep(entries, x, n - 1);
    }
  }

  lemma OneRootRow(entries: seq<Entry>, x: Entry, n: nat, i: nat, k: nat)
    requires UniqueComments(entries) && x in entries && EndsAt(entries, x, n) && n > 0
    requires i < |TopLevel(entries, |entries|)| && k < |TopLevel(entries, |entries|)|
    requires Ancestor(entries, x, n) == Some(TopLevel(entries, |entries|)[i])
    requires Descends(entries, x, TopLevel(entries, |entries|)[k])
    ensures i == k
  {
    var tops := TopLevel(entries, |entries|);
    var m :| m > 0 && Ancestor(entries, x, m) == Some(tops[k]);
    TopLevelFacts(entries, |entries|);
    assert tops[k] in tops;
    assert EndsAt(entries, x, m);
    OneEnd(entries, x, m, n);
    AncestorStep(entries, x, n - 1);
    NotBeforeItself(entries, tops[i]);
    TopLevelOrder(entries, |entries|);
  }

  /** The rows show every entry whose parent chain ends, as often as it came in, and nothing else. */
  lemma RowsCount(entries: seq<Entry>, rows: seq<Row>, x: Entry)
    requires UniqueComments(entries) && IsRows(entries, rows)
    ensures Emitted(rows)[x] == if x in entries && ReachesTop(entries, x) then multiset(entries)[x] else 0
  {
    var tops := TopLevel(entries, |entries|);
    TopLevelCount(entries, x);
    TopLevelFacts(entries, |entries|);
    assert entries[..|entries|] == entries;
    EmittedSplit(rows, tops, x);
    if x in entries && Nested(entries, x) {
      NestedCount(entries, rows, x);
      CommentOnce(entries, x);
    } else {
      assert Ancestor(entries, x, 0) == Some(x);
      assert !Nested(entries, x) ==> EndsAt(entries, x, 0);
      forall k | 0 <= k < |rows| ensures x !in rows[k].replies {
        assert tops[k] in tops;
        if tops[k].comment {
          ThreadIsDescendants(entries, tops[k], rows[k].replies);
        }
      }
      InNoReplies(rows, x);
    }
  }

  lemma CommentOnce(entries: seq<Entry>, x: Entry)
    requires UniqueComments(entries) && x in entries && x.comment
    ensures multiset(entries)[x] == 1
  {
    var i :| 0 <= i < |entries| && entries[i] == x;
    var front, back := entries[..i], entries[i + 1..];
    assert entries == front + [x] + back;
    assert x !in front && x !in back;
  }

  /**
   * Conservation: the rows show a part of the input; all of it exactly when every parent chain ends at a
   * top-level entry; and an input entry is missing exactly when its chain enters a cycle.
   */
  lemma Conservation(entries: seq<Entry>, rows: seq<Row>)
    requires UniqueComments(entries) && IsRows(entries, rows)
    ensures Emitted(rows) <= multiset(entries)
    ensures Emitted(rows) == multiset(entries) <==> forall e :: e in entries ==> ReachesTop(entries, e)
    ensures forall e :: e in entries ==> (e !in Emitted(rows) <==> EntersCycle(entries, e))
  {
    forall x ensures Emitted(rows)[x] == if x in entries && ReachesTop(entries, x) then multiset(entries)[x] else 0 {
      RowsCount(entries, rows, x);
    }
    forall e | e in entries ensures e !in Emitted(rows) <==> EntersCycle(entries, e) {
      TopOrCycle(entries, e);
      assert multiset(entries)[e] > 0;
    }
    if e :| e in entries && !ReachesTop(entries, e) {
      assert multiset(entries)[e] > 0 && Emitted(rows)[e] == 0;
    }
  }

  /** A reply to nobody, or to a comment that is not in the batch, becomes a row of its own. */
  lemma OrphansBecomeRows(entries: seq<Entry>, rows: seq<Row>, e: Entry)
    requires IsRows(entries, rows) && e in entries && e.comment
    requires e.parentId.Some? && (e.parentId.value == "" || e.parentId.value !in CommentIds(entries))
    ensures exists k :: 0 <= k < |rows| && rows[k].entry == e
  {
    TopLevelFacts(entries, |entries|);
    assert entries[..|entries|] == entries;
    var k :| 0 <= k < |TopLevel(entries, |entries|)| && TopLevel(entries, |entries|)[k] == e;
    assert IsRow(entries, e, rows[k]);
  }

  /** Two comments answering each other: neither is shown. */
  lemma TwoOnACycleAreLost(rows: seq<Row>)
    requires IsRows([Entry(true, "a", Some("b"), ""), Entry(true, "b", Some("a"), "")], rows)
    ensures rows == []
  {
    var a, b := Entry(true, "a", Some("b"), ""), Entry(true, "b", Some("a"), "");
    assert a in [a, b] && b in [a, b];
    assert "a" in CommentIds([a, b]) && "b" in CommentIds([a, b]);
    assert TopLevel([a, b], 0) == [] && TopLevel([a, b], 1) == [];
  }
}
