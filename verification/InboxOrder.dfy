/**
 * When the inbox of apps/mobile/lib/inbox-display.ts depends on the order its items come in.
 */
module InboxOrder {
  import opened Common
  import opened InboxDisplay

  /** Ties leave each group one representative only. */
  ghost predicate OneRepresentativeEach(active: seq<Item>) {
    forall k, r, q :: StandsFor(active, k, r) && StandsFor(active, k, q) ==> r == q
  }

  /** The newest items of different groups differ in time. */
  ghost predicate NewestDiffer(active: seq<Item>) {
    forall n, m :: Newest(active, Key(n), n) && Newest(active, Key(m), m) && Key(n) != Key(m) ==> n.createdAt != m.createdAt
  }

  ghost predicate Unambiguous(active: seq<Item>) {
    OneRepresentativeEach(active) && NewestDiffer(active)
  }

  ghost predicate SameMembers(a: seq<Item>, b: seq<Item>) {
    forall x :: x in a <==> x in b
  }

  lemma StandsForSame(a: seq<Item>, b: seq<Item>, k: string, r: Item)
    requires SameMembers(a, b) && StandsFor(a, k, r)
    ensures StandsFor(b, k, r)
  {
    var n :| Newest(a, k, n) && AnchoredAs(a, k, n, r);
    assert Newest(b, k, n);
    assert NoAnchor(a, k) <==> NoAnchor(b, k);
    if CommentOf(n).None? && !NoAnchor(a, k) {
      var c :| NewestAnchor(a, k, c) && r == WithComment(n, CommentOf(c));
      assert NewestAnchor(b, k, c);
    }
    assert AnchoredAs(b, k, n, r);
  }

  lemma UnambiguousSame(a: seq<Item>, b: seq<Item>)
    requires SameMembers(a, b) && Unambiguous(a)
    ensures Unambiguous(b)
  {
    forall k, r, q | StandsFor(b, k, r) && StandsFor(b, k, q) ensures r == q {
      StandsForSame(b, a, k, r);
      StandsForSame(b, a, k, q);
    }
    forall n, m | Newest(b, Key(n), n) && Newest(b, Key(m), m) && Key(n) != Key(m) ensures n.createdAt != m.createdAt {
      assert Newest(a, Key(n), n) && Newest(a, Key(m), m);
    }
  }

  lemma HeadIn(s: seq<Item>)
    ensures s != [] ==> s[0] in s
  {
  }

  lemma {:induction false} SortedUnique(s: seq<Item>, t: seq<Item>)
    requires forall i, j :: 0 <= i < j < |s| ==> s[i].createdAt > s[j].createdAt
    requires forall i, j :: 0 <= i < j < |t| ==> t[i].createdAt > t[j].createdAt
    requires forall x :: x in s <==> x in t
    ensures s == t
  {
    if s == [] {
      HeadIn(t);
    } else {
      assert s[0] in s && t != [] && t[0] in t;
      assert s[0] == t[0];
      forall x ensures x in s[1..] <==> x in t[1..] {
        assert x in s <==> x == s[0] || x in s[1..];
        assert x in t <==> x == t[0] || x in t[1..];
      }
      SortedUnique(s[1..], t[1..]);
    }
  }

  ghost predicate StrictlyNewestFirst(s: seq<Item>) {
    forall i, j :: 0 <= i < j < |s| ==> s[i].createdAt > s[j].createdAt
  }

  lemma EntriesDiffer(active: seq<Item>, out: seq<Item>)
    requires IsDeduplicated(active, out) && NewestDiffer(active)
    ensures StrictlyNewestFirst(out)
  {
    forall i, j | 0 <= i < j < |out| ensures out[i].createdAt > out[j].createdAt {
      assert out[i] in out && out[j] in out;
      var n := NewestOf(active, out[i]);
      var m := NewestOf(active, out[j]);
      assert n.createdAt != m.createdAt;
    }
  }

  lemma NewestOf(active: seq<Item>, r: Item) returns (n: Item)
    requires StandsFor(active, Key(r), r)
    ensures Key(n) == Key(r) && Newest(active, Key(n), n) && n.createdAt == r.createdAt
  {
    n :| Newest(active, Key(r), n) && AnchoredAs(active, Key(r), n, r);
  }

  lemma EntriesShared(a: seq<Item>, b: seq<Item>, s: seq<Item>, t: seq<Item>)
    requires SameMembers(a, b) && OneRepresentativeEach(a) && IsDeduplicated(a, s) && IsDeduplicated(b, t)
    ensures forall x :: x in s ==> x in t
  {
    forall x | x in s ensures x in t {
      var n := NewestOf(a, x);
      assert n in b;
      var q :| q in t && Key(q) == Key(n);
      StandsForSame(b, a, Key(q), q);
    }
  }

  /** The inbox then depends only on which unarchived items there are. */
  lemma SameItemsSameInbox(items: seq<Item>, other: seq<Item>)
    requires Unambiguous(Active(items, |items|))
    requires SameMembers(Active(items, |items|), Active(other, |other|))
    ensures Deduplicated(items) == Deduplicated(other)
  {
    var a, b := Active(items, |items|), Active(other, |other|);
    var s, t := Deduplicated(items), Deduplicated(other);
    DeduplicatedFacts(items);
    DeduplicatedFacts(other);
    UnambiguousSame(a, b);
    EntriesDiffer(a, s);
    EntriesDiffer(b, t);
    EntriesShared(a, b, s, t);
    EntriesShared(b, a, t, s);
    SortedUnique(s, t);
  }

  lemma UnarchivedIn(items: seq<Item>, x: Item)
    ensures x in Active(items, |items|) <==> x in multiset(items) && !x.archived
  {
    ActiveFacts(items, |items|);
    assert items[..|items|] == items;
  }

  lemma PermutedActive(items: seq<Item>, other: seq<Item>)
    requires multiset(items) == multiset(other)
    ensures SameMembers(Active(items, |items|), Active(other, |other|))
  {
    forall x ensures x in Active(items, |items|) <==> x in Active(other, |other|) {
      UnarchivedIn(items, x);
      UnarchivedIn(other, x);
    }
  }

  // ---------------------------------------------------------------------------------------------
  // Moving an item to the front
  // ---------------------------------------------------------------------------------------------

  lemma ToFront(items: seq<Item>, x: Item) returns (rest: seq<Item>)
    requires x in items
    ensures multiset([x] + rest) == multiset(items)
  {
    var i :| 0 <= i < |items| && items[i] == x;
    rest := items[..i] + items[i + 1..];
    assert items == items[..i] + [x] + items[i + 1..];
  }

  lemma Regroup(x: Item, front: seq<Item>, last: seq<Item>)
    ensures ([x] + front) + last == [x] + (front + last)
  {
  }

  lemma {:induction false} ActiveCons(x: Item, rest: seq<Item>, n: nat)
    requires !x.archived && n <= |rest|
    ensures Active([x] + rest, n + 1) == [x] + Active(rest, n)
  {
    var s := [x] + rest;
    if n == 0 {
      assert Active(s, 0) == [];
    } else {
      ActiveCons(x, rest, n - 1);
      assert s[n] == rest[n - 1];
      Regroup(x, Active(rest, n - 1), if rest[n - 1].archived then [] else [rest[n - 1]]);
    }
  }

  lemma {:induction false} GroupCons(x: Item, rest: seq<Item>, n: nat)
    requires n <= |rest|
    ensures GroupOf([x] + rest, n + 1, Key(x)) == [x] + GroupOf(rest, n, Key(x))
  {
    var s, k := [x] + rest, Key(x);
    if n == 0 {
      assert GroupOf(s, 0, k) == [];
    } else {
      GroupCons(x, rest, n - 1);
      assert s[n] == rest[n - 1];
      Regroup(x, GroupOf(rest, n - 1, k), if Key(rest[n - 1]) == k then [rest[n - 1]] else []);
    }
  }

  lemma {:induction false} FirstKey(active: seq<Item>, n: nat)
    requires 0 < n <= |active|
    ensures KeyOrder(active, n) != [] && KeyOrder(active, n)[0] == Key(active[0])
  {
    if n == 1 {
      assert KeyOrder(active, 0) == [];
    } else {
      FirstKey(active, n - 1);
    }
  }

  /** An item as new as all the others sorts to the front. */
  lemma NewestSortsFirst(x: Item, rest: seq<Item>)
    requires forall y :: y in rest ==> y.createdAt <= x.createdAt
    ensures SortNewestFirst([x] + rest) == [x] + SortNewestFirst(rest)
  {
    assert ([x] + rest)[1..] == rest;
    SortKeepsMembers(rest);
    HeadIn(SortNewestFirst(rest));
  }

  /** An anchor as new as all the others, inserted last, is found first. */
  lemma {:induction false} NewestAnchorFoundFirst(a: Item, s: seq<Item>)
    requires Truthy(CommentOf(a)) && forall y :: y in s && Truthy(CommentOf(y)) ==> y.createdAt <= a.createdAt
    ensures FirstComment(Insert(a, s)) == CommentOf(a)
  {
    if s == [] || a.createdAt >= s[0].createdAt {
      assert Insert(a, s)[0] == a;
    } else {
      assert s[0] in s;
      assert Insert(a, s)[1..] == Insert(a, s[1..]);
      NewestAnchorFoundFirst(a, s[1..]);
    }
  }

  /** The entry that stands for k's group. */
  ghost predicate Shows(items: seq<Item>, k: string, r: Item) {
    r in Deduplicated(items) && Key(r) == k
  }

  lemma OneEntry(items: seq<Item>, k: string, r: Item, q: Item)
    requires Shows(items, k, r) && Shows(items, k, q)
    ensures r == q
  {
    DeduplicatedFacts(items);
  }

  /** What a group is merged to is in the inbox. */
  lemma GroupShown(items: seq<Item>, k: string)
    requires GroupOf(Active(items, |items|), |Active(items, |items|)|, k) != []
    ensures var group := GroupOf(Active(items, |items|), |Active(items, |items|)|, k);
      SortNewestFirst(group) != [] && Shows(items, k, Merged(SortNewestFirst(group)))
  {
    var active := Active(items, |items|);
    var keys := KeyOrder(active, |active|);
    KeyOrderFacts(active, |active|);
    GroupHasKey(active, k);
    var i := FindKey(keys, k);
    MergedAllAt(active, keys, i);
    SortKeepsMembers(MergedAll(active, keys));
    assert MergedAll(active, keys)[i] in MergedAll(active, keys);
    GroupSorts(active, k);
    MergedStandsFor(active, k, SortNewestFirst(GroupOf(active, |active|, k)));
  }

  lemma GroupHasKey(active: seq<Item>, k: string)
    requires GroupOf(active, |active|, k) != []
    ensures exists i :: 0 <= i < |active| && Key(active[i]) == k
  {
    GroupFacts(active, |active|, k);
    assert active[..|active|] == active;
    var x := GroupOf(active, |active|, k)[0];
    assert x in GroupOf(active, |active|, k);
    var i :| 0 <= i < |active| && active[i] == x;
  }

  /** The group of a newest item that comes first sorts it first. */
  lemma LeadsItsGroup(x: Item, rest: seq<Item>)
    requires !x.archived && Newest(Active([x] + rest, |rest| + 1), Key(x), x)
    ensures var active, tail := Active([x] + rest, |rest| + 1), Active(rest, |rest|);
      active == [x] + tail &&
      SortNewestFirst(GroupOf(active, |active|, Key(x))) == [x] + SortNewestFirst(GroupOf(tail, |tail|, Key(x)))
  {
    var tail := Active(rest, |rest|);
    ActiveCons(x, rest, |rest|);
    GroupCons(x, tail, |tail|);
    GroupNoNewer(x, tail);
    NewestSortsFirst(x, GroupOf(tail, |tail|, Key(x)));
  }

  lemma GroupNoNewer(x: Item, tail: seq<Item>)
    requires Newest([x] + tail, Key(x), x)
    ensures forall y :: y in GroupOf(tail, |tail|, Key(x)) ==> y.createdAt <= x.createdAt
  {
    GroupFacts(tail, |tail|, Key(x));
    assert tail[..|tail|] == tail;
    assert forall y :: y in tail ==> y in [x] + tail;
  }

  /** A newest item with a comment of its own, or in a group without anchors, put first is shown as it is. */
  lemma ShownAsItIs(items: seq<Item>, n: Item) returns (p: seq<Item>)
    requires Newest(Active(items, |items|), Key(n), n)
    requires CommentOf(n).Some? || NoAnchor(Active(items, |items|), Key(n))
    ensures multiset(p) == multiset(items) && Shows(p, Key(n), n)
  {
    var rest := MovedFirst(items, n);
    p := [n] + rest;
    LeadsShownAsItIs(n, rest);
  }

  /** A newest item put first is a newest item still. */
  lemma MovedFirst(items: seq<Item>, n: Item) returns (rest: seq<Item>)
    requires Newest(Active(items, |items|), Key(n), n)
    ensures multiset([n] + rest) == multiset(items) && !n.archived
    ensures Newest(Active([n] + rest, |rest| + 1), Key(n), n)
    ensures NoAnchor(Active(items, |items|), Key(n)) ==> NoAnchor(Active([n] + rest, |rest| + 1), Key(n))
  {
    UnarchivedIn(items, n);
    rest := ToFront(items, n);
    var p := [n] + rest;
    PermutedActive(items, p);
    StillNewest(Active(items, |items|), Active(p, |p|), n);
    assert |p| == |rest| + 1;
  }

  lemma StillNewest(a: seq<Item>, b: seq<Item>, n: Item)
    requires SameMembers(a, b) && Newest(a, Key(n), n)
    ensures Newest(b, Key(n), n) && (NoAnchor(a, Key(n)) ==> NoAnchor(b, Key(n)))
  {
  }

  lemma LeadsShownAsItIs(n: Item, rest: seq<Item>)
    requires !n.archived && Newest(Active([n] + rest, |rest| + 1), Key(n), n)
    requires CommentOf(n).Some? || NoAnchor(Active([n] + rest, |rest| + 1), Key(n))
    ensures Shows([n] + rest, Key(n), n)
  {
    var p := [n] + rest;
    LeadsItsGroup(n, rest);
    SortKeepsMembers(GroupOf(Active(p, |p|), |Active(p, |p|)|, Key(n)));
    GroupShown(p, Key(n));
    MergedAsItIs(Active(p, |p|), n);
  }

  lemma MergedAsItIs(active: seq<Item>, n: Item)
    requires GroupOf(active, |active|, Key(n)) != []
    requires CommentOf(n).Some? || NoAnchor(active, Key(n))
    ensures var group := SortNewestFirst(GroupOf(active, |active|, Key(n)));
      group != [] && (group[0] == n ==> Merged(group) == n)
  {
    var group := SortNewestFirst(GroupOf(active, |active|, Key(n)));
    GroupSorts(active, Key(n));
    AnchorOfGroup(active, Key(n), group);
  }

  lemma BothToFront(items: seq<Item>, n: Item, a: Item) returns (rest: seq<Item>)
    requires n in items && a in items && n != a
    ensures multiset([n] + ([a] + rest)) == multiset(items)
  {
    var others := ToFront(items, n);
    assert a in others by { assert a in multiset([n] + others); }
    rest := ToFront(others, a);
    assert multiset([n] + others) == multiset([n]) + multiset(others);
    assert multiset([n] + ([a] + rest)) == multiset([n]) + multiset([a] + rest);
  }

  lemma AnchorComesSecond(n: Item, a: Item, group: seq<Item>)
    requires forall y :: y in [a] + group ==> y.createdAt <= n.createdAt
    requires CommentOf(n).None? && Truthy(CommentOf(a))
    requires forall y :: y in group && Truthy(CommentOf(y)) ==> y.createdAt <= a.createdAt
    ensures var all := SortNewestFirst([n] + ([a] + group));
      all != [] && Merged(all) == WithComment(n, CommentOf(a))
  {
    var all := SortNewestFirst([n] + ([a] + group));
    NewestSortsFirst(n, [a] + group);
    assert ([a] + group)[1..] == group;
    SortKeepsMembers(group);
    NewestAnchorFoundFirst(a, SortNewestFirst(group));
    assert all[0] == n && all[1..] == Insert(a, SortNewestFirst(group));
    assert FirstComment(all) == CommentOf(a);
  }

  lemma TwoLeadTheGroup(n: Item, a: Item, rest: seq<Item>)
    requires !n.archived && !a.archived && Key(n) == Key(a)
    ensures var p := [n] + ([a] + rest);
      var active, left := Active(p, |p|), Active(rest, |rest|);
      active == [n] + ([a] + left) && GroupOf(active, |active|, Key(n)) == [n] + ([a] + GroupOf(left, |left|, Key(n)))
  {
    var left := Active(rest, |rest|);
    ActiveCons(n, [a] + rest, |rest| + 1);
    ActiveCons(a, rest, |rest|);
    GroupCons(n, [a] + left, |left| + 1);
    GroupCons(a, left, |left|);
  }

  /** A newest item without a comment, put first and its group's chosen anchor second, is shown with that anchor. */
  lemma ShownWithAnchor(items: seq<Item>, n: Item, a: Item) returns (p: seq<Item>)
    requires Newest(Active(items, |items|), Key(n), n) && CommentOf(n).None?
    requires NewestAnchor(Active(items, |items|), Key(n), a)
    ensures multiset(p) == multiset(items) && Shows(p, Key(n), WithComment(n, CommentOf(a)))
  {
    UnarchivedIn(items, n);
    UnarchivedIn(items, a);
    var rest := BothToFront(items, n, a);
    p := [n] + ([a] + rest);
    PermutedActive(items, p);
    TwoLeadTheGroup(n, a, rest);
    var left := Active(rest, |rest|);
    var group := GroupOf(left, |left|, Key(n));
    NoneBeatsThem(Active(items, |items|), Active(p, |p|), n, a, group);
    AnchorComesSecond(n, a, group);
    GroupShown(p, Key(n));
  }

  lemma NoneBeatsThem(active: seq<Item>, moved: seq<Item>, n: Item, a: Item, group: seq<Item>)
    requires SameMembers(active, moved) && Newest(active, Key(n), n) && NewestAnchor(active, Key(n), a)
    requires GroupOf(moved, |moved|, Key(n)) == [n] + ([a] + group)
    ensures forall y :: y in [a] + group ==> y.createdAt <= n.createdAt
    ensures forall y :: y in group && Truthy(CommentOf(y)) ==> y.createdAt <= a.createdAt
  {
    GroupFacts(moved, |moved|, Key(n));
    assert moved[..|moved|] == moved;
    assert forall y :: y in [a] + group ==> y in GroupOf(moved, |moved|, Key(n));
  }

  /** Every possible representative is shown for some order. */
  lemma ShownForSomeOrder(items: seq<Item>, k: string, r: Item) returns (p: seq<Item>)
    requires StandsFor(Active(items, |items|), k, r)
    ensures multiset(p) == multiset(items) && Shows(p, k, r)
  {
    var active := Active(items, |items|);
    var n :| Newest(active, k, n) && AnchoredAs(active, k, n, r);
    if CommentOf(n).Some? || NoAnchor(active, k) {
      p := ShownAsItIs(items, n);
    } else {
      var a :| NewestAnchor(active, k, a) && r == WithComment(n, CommentOf(a));
      p := ShownWithAnchor(items, n, a);
    }
  }

  /** A newest item put first makes its group's entry the first of its time. */
  lemma FirstOfItsTime(items: seq<Item>, n: Item) returns (p: seq<Item>)
    requires Newest(Active(items, |items|), Key(n), n)
    ensures multiset(p) == multiset(items)
    ensures At(Deduplicated(p), n.createdAt) != [] && Key(At(Deduplicated(p), n.createdAt)[0]) == Key(n)
  {
    var rest := MovedFirst(items, n);
    p := [n] + rest;
    LeadsItsGroup(n, rest);
    FirstShown(p, n);
  }

  lemma FirstShown(p: seq<Item>, n: Item)
    requires var active := Active(p, |p|); active != [] && active[0] == n && Newest(active, Key(n), n)
    ensures At(Deduplicated(p), n.createdAt) != [] && Key(At(Deduplicated(p), n.createdAt)[0]) == Key(n)
  {
    var active := Active(p, |p|);
    KeyOrderFacts(active, |active|);
    FirstMerged(active, n);
    SortFacts(MergedAll(active, KeyOrder(active, |active|)));
  }

  lemma FirstMerged(active: seq<Item>, n: Item)
    requires active != [] && active[0] == n && Newest(active, Key(n), n)
    requires forall i :: 0 <= i < |KeyOrder(active, |active|)| ==> GroupOf(active, |active|, KeyOrder(active, |active|)[i]) != []
    ensures var merged := MergedAll(active, KeyOrder(active, |active|));
      merged != [] && Key(merged[0]) == Key(n) && merged[0].createdAt == n.createdAt
  {
    var keys := KeyOrder(active, |active|);
    FirstKey(active, |active|);
    MergedAllAt(active, keys, 0);
    GroupSorts(active, Key(n));
    MergedStandsFor(active, Key(n), SortNewestFirst(GroupOf(active, |active|, Key(n))));
    var m := NewestOf(active, MergedAll(active, keys)[0]);
  }

  /** If ties leave a choice, two orders of the same items give different inboxes. */
  lemma OrderMatters(items: seq<Item>) returns (p: seq<Item>, q: seq<Item>)
    requires !Unambiguous(Active(items, |items|))
    ensures multiset(p) == multiset(items) == multiset(q) && Deduplicated(p) != Deduplicated(q)
  {
    var active := Active(items, |items|);
    if !OneRepresentativeEach(active) {
      var k, r, s :| StandsFor(active, k, r) && StandsFor(active, k, s) && r != s;
      p := ShownForSomeOrder(items, k, r);
      q := ShownForSomeOrder(items, k, s);
      if Deduplicated(p) == Deduplicated(q) {
        OneEntry(p, k, r, s);
      }
    } else {
      var n, m :| Newest(active, Key(n), n) && Newest(active, Key(m), m) && Key(n) != Key(m) && n.createdAt == m.createdAt;
      p := FirstOfItsTime(items, n);
      q := FirstOfItsTime(items, m);
    }
  }

  /** Every order of the input gives the same inbox exactly if ties leave no choice: not of a group's representative, and
      not of which group comes first. */
  lemma OrderIndependentExactly(items: seq<Item>)
    ensures (forall other :: multiset(other) == multiset(items) ==> Deduplicated(other) == Deduplicated(items)) <==>
      Unambiguous(Active(items, |items|))
  {
    if Unambiguous(Active(items, |items|)) {
      forall other | multiset(other) == multiset(items) ensures Deduplicated(other) == Deduplicated(items) {
        PermutedActive(items, other);
        SameItemsSameInbox(items, other);
      }
    } else {
      var p, q := OrderMatters(items);
      assert multiset(p) == multiset(items) && multiset(q) == multiset(items);
    }
  }

  /** A timestamp tells which item it is. */
  ghost predicate TimesTell(active: seq<Item>) {
    forall x, y :: x in active && y in active && x.createdAt == y.createdAt ==> x == y
  }

  /** Distinct timestamps leave no choice. */
  lemma DistinctTimesSuffice(active: seq<Item>)
    requires TimesTell(active)
    ensures Unambiguous(active)
  {
    forall k, r, q | StandsFor(active, k, r) && StandsFor(active, k, q) ensures r == q {
      var n :| Newest(active, k, n) && AnchoredAs(active, k, n, r);
      var m :| Newest(active, k, m) && AnchoredAs(active, k, m, q);
      assert n.createdAt == m.createdAt && n == m;
      if CommentOf(n).None? && !NoAnchor(active, k) {
        var a :| NewestAnchor(active, k, a) && r == WithComment(n, CommentOf(a));
        var b :| NewestAnchor(active, k, b) && q == WithComment(n, CommentOf(b));
        assert a.createdAt == b.createdAt && a == b;
      }
    }
  }

  /** Two items of one issue with one timestamp: which is shown depends on the order they came in. */
  lemma TiesDependOnOrder(a: Item, b: Item)
    requires a != b && Key(a) == Key(b) && a.createdAt == b.createdAt && !a.archived && !b.archived
    requires CommentOf(a).Some? && CommentOf(b).Some?
    ensures Deduplicated([a, b]) == [a] && Deduplicated([b, a]) == [b]
  {
    FirstOfTie(a, b);
    FirstOfTie(b, a);
  }

  lemma FirstOfTie(a: Item, b: Item)
    requires Key(a) == Key(b) && a.createdAt == b.createdAt && !a.archived && !b.archived && CommentOf(a).Some?
    ensures Deduplicated([a, b]) == [a]
  {
    var s := [a, b];
    TieGroups(a, b);
    TieSorts(a, b);
    MergedAllAt(s, [Key(a)], 0);
    assert MergedAll(s, [Key(a)]) == [Merged(s)];
    assert [a][1..] == [];
    assert SortNewestFirst([a]) == [a];
  }

  lemma TieGroups(a: Item, b: Item)
    requires Key(a) == Key(b) && !a.archived && !b.archived
    ensures Active([a, b], 2) == [a, b] && KeyOrder([a, b], 2) == [Key(a)] && GroupOf([a, b], 2, Key(a)) == [a, b]
  {
    var s := [a, b];
    assert Active(s, 0) == [] && KeyOrder(s, 0) == [] && GroupOf(s, 0, Key(a)) == [];
    assert Active(s, 1) == [a] && KeyOrder(s, 1) == [Key(a)] && GroupOf(s, 1, Key(a)) == [a];
  }

  lemma TieSorts(a: Item, b: Item)
    requires a.createdAt == b.createdAt
    ensures SortNewestFirst([a, b]) == [a, b]
  {
    SortOfSorted([a, b]);
  }
}
