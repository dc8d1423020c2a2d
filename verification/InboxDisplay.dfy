/**
 * deduplicateInboxItems of apps/mobile/lib/inbox-display.ts: one inbox entry per issue, the newest of its group,
 * carrying a comment anchor when the group has one.
 */
module InboxDisplay {
  import opened Common

  datatype Details = Details(commentId: Option<string>, other: map<string, string>)
  datatype Item = Item(id: string, issueId: Option<string>, archived: bool, createdAt: int, details: Option<Details>)

  function Key(i: Item): string {
    if i.issueId.Some? then i.issueId.value else i.id
  }

  function CommentOf(i: Item): Option<string> {
    if i.details.Some? then i.details.value.commentId else None
  }

  predicate Truthy(c: Option<string>) {
    c.Some? && c.value != ""
  }

  function WithComment(i: Item, c: Option<string>): Item {
    i.(details := Some(Details(c, if i.details.Some? then i.details.value.other else map[])))
  }

  // ---------------------------------------------------------------------------------------------
  // Array.prototype.sort with the newest-first comparator: stable
  // ---------------------------------------------------------------------------------------------

  function Insert(x: Item, s: seq<Item>): seq<Item> {
    if s == [] || x.createdAt >= s[0].createdAt then [x] + s else [s[0]] + Insert(x, s[1..])
  }

  function SortNewestFirst(s: seq<Item>): seq<Item> {
    if s == [] then [] else Insert(s[0], SortNewestFirst(s[1..]))
  }

  ghost predicate NewestFirst(s: seq<Item>) {
    forall i, j :: 0 <= i < j < |s| ==> s[i].createdAt >= s[j].createdAt
  }

  function At(s: seq<Item>, t: int): seq<Item> {
    if s == [] then [] else (if s[0].createdAt == t then [s[0]] else []) + At(s[1..], t)
  }

  lemma AtCons(x: Item, s: seq<Item>, t: int)
    ensures At([x] + s, t) == (if x.createdAt == t then [x] else []) + At(s, t)
  {
    assert ([x] + s)[1..] == s;
  }

  lemma {:induction false} InsertStable(x: Item, s: seq<Item>, t: int)
    ensures At(Insert(x, s), t) == (if x.createdAt == t then [x] else []) + At(s, t)
  {
    if s == [] || x.createdAt >= s[0].createdAt {
      AtCons(x, s, t);
    } else {
      InsertStable(x, s[1..], t);
      AtCons(s[0], Insert(x, s[1..]), t);
      assert s == [s[0]] + s[1..];
      AtCons(s[0], s[1..], t);
    }
  }

  lemma {:induction false} InsertMembers(x: Item, s: seq<Item>)
    ensures multiset(Insert(x, s)) == multiset{x} + multiset(s)
    ensures forall y :: y in Insert(x, s) <==> y == x || y in s
  {
    if s != [] && x.createdAt < s[0].createdAt {
      InsertMembers(x, s[1..]);
      assert s == [s[0]] + s[1..];
    }
  }

  lemma {:induction false} InsertSorted(x: Item, s: seq<Item>)
    requires NewestFirst(s)
    ensures NewestFirst(Insert(x, s))
  {
    if s != [] && x.createdAt < s[0].createdAt {
      InsertSorted(x, s[1..]);
      InsertMembers(x, s[1..]);
      assert forall y :: y in s[1..] ==> y.createdAt <= s[0].createdAt;
    }
  }

  /** Sorted, a permutation, and entries of one timestamp keep their order. */
  lemma {:induction false} SortFacts(s: seq<Item>)
    ensures NewestFirst(SortNewestFirst(s))
    ensures multiset(SortNewestFirst(s)) == multiset(s)
    ensures forall t :: At(SortNewestFirst(s), t) == At(s, t)
  {
    if s != [] {
      SortFacts(s[1..]);
      InsertSorted(s[0], SortNewestFirst(s[1..]));
      InsertMembers(s[0], SortNewestFirst(s[1..]));
      assert s == [s[0]] + s[1..];
      forall t ensures At(SortNewestFirst(s), t) == At(s, t) {
        InsertStable(s[0], SortNewestFirst(s[1..]), t);
        AtCons(s[0], s[1..], t);
      }
    }
  }

  lemma SortKeepsMembers(s: seq<Item>)
    ensures forall x :: x in SortNewestFirst(s) <==> x in s
    ensures |SortNewestFirst(s)| == |s|
  {
    SortFacts(s);
    assert forall x :: x in SortNewestFirst(s) <==> x in multiset(SortNewestFirst(s));
    assert |multiset(SortNewestFirst(s))| == |multiset(s)|;
  }

  lemma {:induction false} SortOfSorted(s: seq<Item>)
    requires NewestFirst(s)
    ensures SortNewestFirst(s) == s
  {
    if s != [] {
      SortOfSorted(s[1..]);
    }
  }

  // ---------------------------------------------------------------------------------------------
  // Grouping and merging
  // ---------------------------------------------------------------------------------------------

  /** The unarchived among the first n items. */
  function Active(items: seq<Item>, n: nat): seq<Item>
    requires n <= |items|
  {
    if n == 0 then [] else Active(items, n - 1) + if items[n - 1].archived then [] else [items[n - 1]]
  }

  function GroupOf(active: seq<Item>, n: nat, k: string): seq<Item>
    requires n <= |active|
  {
    if n == 0 then [] else GroupOf(active, n - 1, k) + if Key(active[n - 1]) == k then [active[n - 1]] else []
  }

  /** The keys in order of first appearance. */
  function KeyOrder(active: seq<Item>, n: nat): seq<string>
    requires n <= |active|
  {
    if n == 0 then []
    else
      var before := KeyOrder(active, n - 1);
      if Key(active[n - 1]) in before then before else before + [Key(active[n - 1])]
  }

  function FirstComment(s: seq<Item>): Option<string> {
    if s == [] then None else if Truthy(CommentOf(s[0])) then CommentOf(s[0]) else FirstComment(s[1..])
  }

  /** The representative of a sorted group. */
  function Merged(s: seq<Item>): Item
    requires s != []
  {
    var anchor := if CommentOf(s[0]).Some? then CommentOf(s[0]) else FirstComment(s);
    if Truthy(anchor) && CommentOf(s[0]) != anchor then WithComment(s[0], anchor) else s[0]
  }

  function MergedAll(active: seq<Item>, keys: seq<string>): (r: seq<Item>)
    requires forall i :: 0 <= i < |keys| ==> GroupOf(active, |active|, keys[i]) != []
    ensures |r| == |keys|
  {
    if keys == [] then []
    else
      SortKeepsMembers(GroupOf(active, |active|, keys[|keys| - 1]));
      MergedAll(active, keys[..|keys| - 1]) + [Merged(SortNewestFirst(GroupOf(active, |active|, keys[|keys| - 1])))]
  }

  lemma {:induction false} GroupFacts(active: seq<Item>, n: nat, k: string)
    requires n <= |active|
    ensures forall x :: x in GroupOf(active, n, k) <==> x in active[..n] && Key(x) == k
  {
    if n > 0 {
      GroupFacts(active, n - 1, k);
      assert active[..n] == active[..n - 1] + [active[n - 1]];
    }
  }

  lemma {:induction false} KeyOrderFacts(active: seq<Item>, n: nat)
    requires n <= |active|
    ensures Distinct(KeyOrder(active, n))
    ensures forall k :: k in KeyOrder(active, n) <==> exists i :: 0 <= i < n && Key(active[i]) == k
    ensures forall i :: 0 <= i < |KeyOrder(active, n)| ==> GroupOf(active, n, KeyOrder(active, n)[i]) != []
  {
    if n > 0 {
      KeyOrderFacts(active, n - 1);
      var before := KeyOrder(active, n - 1);
    }
  }

  function Deduplicated(items: seq<Item>): seq<Item> {
    var active := Active(items, |items|);
    KeyOrderFacts(active, |active|);
    SortNewestFirst(MergedAll(active, KeyOrder(active, |active|)))
  }

  /** The representative of one sorted group. */
  method MergeGroup(group: seq<Item>) returns (merged: Item)
    requires group != []
    ensures merged == Merged(group)
  {
    var newest := group[0];
    var commentId := CommentOf(newest);
    if commentId.None? {
      var at := 0;
      while at < |group| && !Truthy(CommentOf(group[at]))
        invariant at <= |group|
        invariant FirstComment(group) == FirstComment(group[at..])
      {
        assert group[at..][1..] == group[at + 1..];
        at := at + 1;
      }
      if at < |group| {
        commentId := CommentOf(group[at]);
      }
    }
    merged := if Truthy(commentId) && CommentOf(newest) != commentId then WithComment(newest, commentId) else newest;
  }

  function Lookup(groups: map<string, seq<Item>>, k: string): seq<Item> {
    if k in groups then groups[k] else []
  }

  /** The groups hold the first n items. */
  ghost predicate Grouped(groups: map<string, seq<Item>>, active: seq<Item>, n: nat)
    requires n <= |active|
  {
    forall k :: Lookup(groups, k) == GroupOf(active, n, k)
  }

  lemma GroupNext(groups: map<string, seq<Item>>, active: seq<Item>, n: nat)
    requires n < |active| && Grouped(groups, active, n)
    ensures var key := Key(active[n]);
      Grouped(groups[key := Lookup(groups, key) + [active[n]]], active, n + 1)
  {
    var key := Key(active[n]);
    var more := groups[key := Lookup(groups, key) + [active[n]]];
    forall k ensures Lookup(more, k) == GroupOf(active, n + 1, k) {
      assert Lookup(groups, k) == GroupOf(active, n, k);
    }
  }

  ghost predicate SameKeys(groups: map<string, seq<Item>>, order: seq<string>) {
    forall k :: k in groups <==> k in order
  }

  lemma KeysNext(groups: map<string, seq<Item>>, order: seq<string>, key: string, group: seq<Item>)
    requires SameKeys(groups, order)
    ensures key in groups <==> key in order
    ensures SameKeys(groups[key := group], if key in order then order else order + [key])
  {
  }

  /** The groups, keyed in insertion order. */
  method GroupByKey(active: seq<Item>) returns (order: seq<string>, groups: map<string, seq<Item>>)
    ensures order == KeyOrder(active, |active|)
    ensures Grouped(groups, active, |active|)
  {
    order, groups := [], map[];
    for i := 0 to |active|
      invariant order == KeyOrder(active, i)
      invariant SameKeys(groups, order)
      invariant Grouped(groups, active, i)
    {
      var key := Key(active[i]);
      var group := Lookup(groups, key) + [active[i]];
      GroupNext(groups, active, i);
      KeysNext(groups, order, key, group);
      if key !in groups {
        order := order + [key];
      }
      groups := groups[key := group];
    }
  }

  method MergeGroups(active: seq<Item>, order: seq<string>, groups: map<string, seq<Item>>) returns (merged: seq<Item>)
    requires Grouped(groups, active, |active|)
    requires forall i :: 0 <= i < |order| ==> GroupOf(active, |active|, order[i]) != []
    ensures merged == MergedAll(active, order)
  {
    merged := [];
    for i := 0 to |order|
      invariant merged == MergedAll(active, order[..i])
    {
      var representative := Represent(active, order[i], Lookup(groups, order[i]));
      MergedAllStep(active, order, i);
      merged := merged + [representative];
    }
    assert order[..|order|] == order;
  }

  method Represent(active: seq<Item>, k: string, group: seq<Item>) returns (representative: Item)
    requires group != [] && group == GroupOf(active, |active|, k)
    ensures SortNewestFirst(group) != [] && representative == Merged(SortNewestFirst(group))
  {
    SortKeepsMembers(group);
    representative := MergeGroup(SortNewestFirst(group));
  }

  lemma MergedAllStep(active: seq<Item>, keys: seq<string>, i: nat)
    requires forall i :: 0 <= i < |keys| ==> GroupOf(active, |active|, keys[i]) != []
    requires i < |keys|
    ensures SortNewestFirst(GroupOf(active, |active|, keys[i])) != []
    ensures MergedAll(active, keys[..i + 1]) ==
      MergedAll(active, keys[..i]) + [Merged(SortNewestFirst(GroupOf(active, |active|, keys[i])))]
  {
    SortKeepsMembers(GroupOf(active, |active|, keys[i]));
    assert keys[..i + 1][..i] == keys[..i];
  }

  method DeduplicateInboxItems(items: seq<Item>) returns (out: seq<Item>)
    ensures out == Deduplicated(items)
  {
    var active: seq<Item> := [];
    for i := 0 to |items|
      invariant active == Active(items, i)
    {
      if !items[i].archived {
        active := active + [items[i]];
      }
    }
    var order, groups := GroupByKey(active);
    KeyOrderFacts(active, |active|);
    var merged := MergeGroups(active, order, groups);
    out := SortNewestFirst(merged);
  }

  // ---------------------------------------------------------------------------------------------
  // What the result is
  // ---------------------------------------------------------------------------------------------

  /** n is a newest item of k's group. */
  ghost predicate Newest(active: seq<Item>, k: string, n: Item) {
    && n in active && Key(n) == k
    && forall x :: x in active && Key(x) == k ==> x.createdAt <= n.createdAt
  }

  /** a is a newest item with a non-empty comment anchor in k's group. */
  ghost predicate NewestAnchor(active: seq<Item>, k: string, a: Item) {
    && a in active && Key(a) == k && Truthy(CommentOf(a))
    && forall x :: x in active && Key(x) == k && Truthy(CommentOf(x)) ==> x.createdAt <= a.createdAt
  }

  ghost predicate NoAnchor(active: seq<Item>, k: string) {
    forall x :: x in active && Key(x) == k ==> !Truthy(CommentOf(x))
  }

  /** r stands for k's group: its newest item, with the group's newest anchor when it has none of its own. */
  ghost predicate StandsFor(active: seq<Item>, k: string, r: Item) {
    exists n :: Newest(active, k, n) && AnchoredAs(active, k, n, r)
  }

  ghost predicate AnchoredAs(active: seq<Item>, k: string, n: Item, r: Item) {
    if CommentOf(n).Some? || NoAnchor(active, k) then r == n
    else exists a :: NewestAnchor(active, k, a) && r == WithComment(n, CommentOf(a))
  }

  /** One entry per key, each standing for its group, newest first. */
  ghost predicate IsDeduplicated(active: seq<Item>, out: seq<Item>) {
    && NewestFirst(out)
    && (forall i, j :: 0 <= i < j < |out| ==> Key(out[i]) != Key(out[j]))
    && (forall r :: r in out ==> StandsFor(active, Key(r), r))
    && (forall x :: x in active ==> exists r :: r in out && Key(r) == Key(x))
  }

  lemma {:induction false} FirstCommentFacts(s: seq<Item>) returns (at: nat)
    ensures at <= |s|
    ensures forall i :: 0 <= i < at ==> !Truthy(CommentOf(s[i]))
    ensures at < |s| ==> Truthy(CommentOf(s[at])) && FirstComment(s) == CommentOf(s[at])
    ensures at == |s| ==> FirstComment(s).None?
  {
    if s == [] {
      at := 0;
    } else if Truthy(CommentOf(s[0])) {
      at := 0;
    } else {
      at := FirstCommentFacts(s[1..]);
      at := at + 1;
    }
  }

  /** The sorted group. */
  ghost predicate SortedGroup(active: seq<Item>, k: string, s: seq<Item>) {
    && s != [] && NewestFirst(s)
    && forall x :: x in s <==> x in active && Key(x) == k
  }

  lemma GroupSorts(active: seq<Item>, k: string)
    requires GroupOf(active, |active|, k) != []
    ensures SortedGroup(active, k, SortNewestFirst(GroupOf(active, |active|, k)))
  {
    var group := GroupOf(active, |active|, k);
    SortFacts(group);
    SortKeepsMembers(group);
    GroupFacts(active, |active|, k);
    assert active[..|active|] == active;
  }

  lemma AnchorOfGroup(active: seq<Item>, k: string, s: seq<Item>)
    requires SortedGroup(active, k, s)
    ensures NoAnchor(active, k) <==> FirstComment(s).None?
    ensures !NoAnchor(active, k) ==> exists a :: NewestAnchor(active, k, a) && FirstComment(s) == CommentOf(a)
  {
    var at := FirstCommentFacts(s);
    if at < |s| {
      assert s[at] in s;
      forall x | x in active && Key(x) == k && Truthy(CommentOf(x)) ensures x.createdAt <= s[at].createdAt {
        assert x in s;
      }
      assert NewestAnchor(active, k, s[at]);
    } else {
      forall x | x in active && Key(x) == k ensures !Truthy(CommentOf(x)) {
        assert x in s;
      }
    }
  }

  lemma {:induction false} FirstCommentTruthy(s: seq<Item>)
    ensures FirstComment(s).Some? ==> Truthy(FirstComment(s))
  {
    if s != [] {
      FirstCommentTruthy(s[1..]);
    }
  }

  lemma MergedStandsFor(active: seq<Item>, k: string, s: seq<Item>)
    requires SortedGroup(active, k, s)
    ensures Key(Merged(s)) == k && StandsFor(active, k, Merged(s))
  {
    var n := s[0];
    forall x | x in active && Key(x) == k ensures x.createdAt <= n.createdAt {
      assert x in s;
    }
    assert n in s && Newest(active, k, n);
    AnchorOfGroup(active, k, s);
    FirstCommentTruthy(s);
    assert AnchoredAs(active, k, n, Merged(s));
  }

  lemma {:induction false} MergedAllAt(active: seq<Item>, keys: seq<string>, i: nat)
    requires forall i :: 0 <= i < |keys| ==> GroupOf(active, |active|, keys[i]) != []
    requires i < |keys|
    ensures |SortNewestFirst(GroupOf(active, |active|, keys[i]))| > 0
    ensures MergedAll(active, keys)[i] == Merged(SortNewestFirst(GroupOf(active, |active|, keys[i])))
  {
    SortKeepsMembers(GroupOf(active, |active|, keys[i]));
    if i < |keys| - 1 {
      MergedAllAt(active, keys[..|keys| - 1], i);
    }
  }

  /** Sorting representatives of all the keys gives the inbox. */
  lemma SortedRepresentatives(active: seq<Item>, keys: seq<string>, merged: seq<Item>)
    requires |merged| == |keys| && Distinct(keys)
    requires forall i :: 0 <= i < |keys| ==> Key(merged[i]) == keys[i] && StandsFor(active, keys[i], merged[i])
    requires forall x :: x in active ==> Key(x) in keys
    ensures IsDeduplicated(active, SortNewestFirst(merged))
  {
    var out := SortNewestFirst(merged);
    SortFacts(merged);
    SortKeepsMembers(merged);
    KeysDiffer(keys, merged);
    DistinctKeysSurvive(merged, out);
    EveryEntryStands(active, keys, merged, out);
    EveryKeyShown(active, keys, merged, out);
  }

  lemma KeysDiffer(keys: seq<string>, merged: seq<Item>)
    requires |merged| == |keys| && Distinct(keys) && forall i :: 0 <= i < |keys| ==> Key(merged[i]) == keys[i]
    ensures forall i, j :: 0 <= i < j < |merged| ==> Key(merged[i]) != Key(merged[j])
  {
  }

  lemma EveryEntryStands(active: seq<Item>, keys: seq<string>, merged: seq<Item>, out: seq<Item>)
    requires |merged| == |keys|
    requires forall i :: 0 <= i < |keys| ==> Key(merged[i]) == keys[i] && StandsFor(active, keys[i], merged[i])
    requires forall x :: x in out <==> x in merged
    ensures forall r :: r in out ==> StandsFor(active, Key(r), r)
  {
    forall r | r in out ensures StandsFor(active, Key(r), r) {
      var i :| 0 <= i < |merged| && merged[i] == r;
    }
  }

  lemma EveryKeyShown(active: seq<Item>, keys: seq<string>, merged: seq<Item>, out: seq<Item>)
    requires |merged| == |keys| && forall i :: 0 <= i < |keys| ==> Key(merged[i]) == keys[i]
    requires forall x :: x in out <==> x in merged
    requires forall x :: x in active ==> Key(x) in keys
    ensures forall x :: x in active ==> exists r :: r in out && Key(r) == Key(x)
  {
    forall x | x in active ensures exists r :: r in out && Key(r) == Key(x) {
      var i := FindKey(keys, Key(x));
      assert merged[i] in out;
    }
  }

  lemma FindKey(keys: seq<string>, k: string) returns (i: nat)
    requires k in keys
    ensures i < |keys| && keys[i] == k
  {
    i :| i < |keys| && keys[i] == k;
  }

  /** Exactly one entry per key of the unarchived items, each its group's newest with its anchor, newest first. */
  lemma DeduplicatedFacts(items: seq<Item>)
    ensures IsDeduplicated(Active(items, |items|), Deduplicated(items))
  {
    var active := Active(items, |items|);
    var keys := KeyOrder(active, |active|);
    KeyOrderFacts(active, |active|);
    var merged := MergedAll(active, keys);
    forall i | 0 <= i < |keys| ensures Key(merged[i]) == keys[i] && StandsFor(active, keys[i], merged[i]) {
      MergedAllAt(active, keys, i);
      GroupSorts(active, keys[i]);
      MergedStandsFor(active, keys[i], SortNewestFirst(GroupOf(active, |active|, keys[i])));
    }
    forall x | x in active ensures Key(x) in keys {
      var i :| 0 <= i < |active| && active[i] == x;
      assert Key(active[i]) == Key(x);
    }
    SortedRepresentatives(active, keys, merged);
  }

  lemma DistinctKeysSurvive(merged: seq<Item>, out: seq<Item>)
    requires multiset(merged) == multiset(out)
    requires forall i, j :: 0 <= i < j < |merged| ==> Key(merged[i]) != Key(merged[j])
    ensures forall i, j :: 0 <= i < j < |out| ==> Key(out[i]) != Key(out[j])
  {
    forall i, j | 0 <= i < j < |out| ensures Key(out[i]) != Key(out[j]) {
      var a, b := out[i], out[j];
      assert a in multiset(out) && b in multiset(out);
      if a == b {
        Twice(out, i, j);
        OnceEach(merged, a);
      }
    }
  }

  lemma Twice(s: seq<Item>, i: nat, j: nat)
    requires i < j < |s| && s[i] == s[j]
    ensures multiset(s)[s[i]] >= 2
  {
    assert s == s[..i] + [s[i]] + s[i + 1..j] + [s[j]] + s[j + 1..];
  }

  lemma OnceEach(s: seq<Item>, x: Item)
    requires forall i, j :: 0 <= i < j < |s| ==> Key(s[i]) != Key(s[j])
    ensures multiset(s)[x] <= 1
  {
    if x in s {
      var i :| 0 <= i < |s| && s[i] == x;
      assert s == s[..i] + [s[i]] + s[i + 1..];
      assert x !in s[..i] && x !in s[i + 1..];
    }
  }

  // ---------------------------------------------------------------------------------------------
  // Idempotence
  // ---------------------------------------------------------------------------------------------

  lemma {:induction false} ActiveFacts(items: seq<Item>, n: nat)
    requires n <= |items|
    ensures forall x :: x in Active(items, n) <==> x in items[..n] && !x.archived
    ensures (forall x :: x in items[..n] ==> !x.archived) ==> Active(items, n) == items[..n]
  {
    if n > 0 {
      ActiveFacts(items, n - 1);
      assert items[..n] == items[..n - 1] + [items[n - 1]];
    }
  }

  lemma StandsForFacts(active: seq<Item>, k: string, r: Item)
    requires StandsFor(active, k, r)
    ensures Key(r) == k
    ensures exists n :: Newest(active, k, n) && n.createdAt == r.createdAt && n.archived == r.archived
  {
    var n :| Newest(active, k, n) && AnchoredAs(active, k, n, r);
  }

  lemma {:induction false} GroupSingleton(s: seq<Item>, n: nat, i: nat)
    requires n <= |s| && i < |s|
    requires forall i, j :: 0 <= i < j < |s| ==> Key(s[i]) != Key(s[j])
    ensures GroupOf(s, n, Key(s[i])) == if i < n then [s[i]] else []
  {
    if n > 0 {
      GroupSingleton(s, n - 1, i);
    }
  }

  lemma {:induction false} KeyOrderSingletons(s: seq<Item>, n: nat)
    requires n <= |s|
    requires forall i, j :: 0 <= i < j < |s| ==> Key(s[i]) != Key(s[j])
    ensures |KeyOrder(s, n)| == n && forall i :: 0 <= i < n ==> KeyOrder(s, n)[i] == Key(s[i])
  {
    if n > 0 {
      KeyOrderSingletons(s, n - 1);
    }
  }

  /** Deduplicating twice is deduplicating once. */
  lemma Idempotent(items: seq<Item>)
    ensures Deduplicated(Deduplicated(items)) == Deduplicated(items)
  {
    var out := Deduplicated(items);
    var active := Active(items, |items|);
    DeduplicatedFacts(items);
    ActiveFacts(items, |items|);
    assert items[..|items|] == items && out[..|out|] == out;
    forall r | r in out ensures !r.archived {
      StandsForFacts(active, Key(r), r);
    }
    ActiveFacts(out, |out|);
    KeyOrderSingletons(out, |out|);
    var keys := KeyOrder(out, |out|);
    KeyOrderFacts(out, |out|);
    forall i | 0 <= i < |out| ensures MergedAll(out, keys)[i] == out[i] {
      GroupSingleton(out, |out|, i);
      MergedAllAt(out, keys, i);
      MergedAlone(out[i]);
    }
    assert MergedAll(out, keys) == out;
    SortOfSorted(out);
  }

  lemma MergedAlone(r: Item)
    ensures SortNewestFirst([r]) == [r] && Merged([r]) == r
  {
    assert [r][1..] == [];
    assert FirstComment([r][1..]) == None;
  }
}
