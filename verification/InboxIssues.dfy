/**
 * What apps/mobile/lib/inbox-display.ts shows, said of the items' own fields: one entry for each issue, and for each
 * item without one.
 */
module InboxIssues {
  import opened Common
  import opened InboxDisplay

  /** Items of one issue belong together; an item without an issue stands under its own id. */
  predicate Together(a: Item, b: Item) {
    if a.issueId.Some? && b.issueId.Some? then a.issueId.value == b.issueId.value
    else if a.issueId.Some? then a.issueId.value == b.id
    else if b.issueId.Some? then a.id == b.issueId.value
    else a.id == b.id
  }

  predicate Shown(items: seq<Item>, x: Item) {
    x in items && !x.archived
  }

  predicate HasAnchor(x: Item) {
    x.details.Some? && x.details.value.commentId.Some? && x.details.value.commentId.value != ""
  }

  ghost predicate NewestTogether(items: seq<Item>, n: Item) {
    Shown(items, n) && forall y :: Shown(items, y) && Together(y, n) ==> y.createdAt <= n.createdAt
  }

  ghost predicate AnchorFor(items: seq<Item>, n: Item, a: Item) {
    && Shown(items, a) && Together(a, n) && HasAnchor(a)
    && forall y :: Shown(items, y) && Together(y, n) && HasAnchor(y) ==> y.createdAt <= a.createdAt
  }

  ghost predicate NoneAnchored(items: seq<Item>, n: Item) {
    forall y :: Shown(items, y) && Together(y, n) ==> !HasAnchor(y)
  }

  /** The item with the other's comment, and all else as it is. */
  function Anchored(n: Item, a: Item): Item
    requires HasAnchor(a)
  {
    n.(details := Some(Details(a.details.value.commentId, if n.details.Some? then n.details.value.other else map[])))
  }

  /** The entry for n: n itself, with the newest comment of its group if it names none. */
  ghost predicate EntryFor(items: seq<Item>, n: Item, r: Item) {
    if (n.details.Some? && n.details.value.commentId.Some?) || NoneAnchored(items, n) then r == n
    else exists a :: AnchorFor(items, n, a) && r == Anchored(n, a)
  }

  ghost predicate IsEntry(items: seq<Item>, r: Item) {
    exists n :: NewestTogether(items, n) && EntryFor(items, n, r)
  }

  lemma ActiveIsShown(items: seq<Item>)
    ensures forall x :: x in Active(items, |items|) <==> Shown(items, x)
  {
    ActiveFacts(items, |items|);
    assert items[..|items|] == items;
  }

  lemma NewestAgrees(items: seq<Item>, n: Item)
    requires Newest(Active(items, |items|), Key(n), n)
    ensures NewestTogether(items, n)
  {
    ActiveIsShown(items);
  }

  lemma AnchorAgrees(items: seq<Item>, n: Item, a: Item)
    requires NewestAnchor(Active(items, |items|), Key(n), a)
    ensures AnchorFor(items, n, a) && WithComment(n, CommentOf(a)) == Anchored(n, a)
  {
    ActiveIsShown(items);
    TogetherIsKey(a, n);
    forall y | Shown(items, y) && Together(y, n) && HasAnchor(y) ensures y.createdAt <= a.createdAt {
      TogetherIsKey(y, n);
      assert Truthy(CommentOf(y));
    }
  }

  lemma TogetherIsKey(a: Item, b: Item)
    ensures Together(a, b) <==> Key(a) == Key(b)
  {
  }

  lemma NoneAgrees(items: seq<Item>, n: Item)
    ensures NoAnchor(Active(items, |items|), Key(n)) <==> NoneAnchored(items, n)
  {
    var active := Active(items, |items|);
    ActiveIsShown(items);
    if NoneAnchored(items, n) {
      forall x | x in active && Key(x) == Key(n) ensures !Truthy(CommentOf(x)) {
        assert Shown(items, x) && Together(x, n);
      }
    }
  }

  lemma AnchoredAgrees(items: seq<Item>, n: Item, r: Item)
    requires AnchoredAs(Active(items, |items|), Key(n), n, r)
    ensures EntryFor(items, n, r) && Together(r, n) && r.createdAt == n.createdAt
  {
    NoneAgrees(items, n);
    if !CommentOf(n).Some? && !NoAnchor(Active(items, |items|), Key(n)) {
      var a :| NewestAnchor(Active(items, |items|), Key(n), a) && r == WithComment(n, CommentOf(a));
      AnchorAgrees(items, n, a);
    }
  }

  lemma NewestBehind(items: seq<Item>, r: Item) returns (n: Item)
    requires StandsFor(Active(items, |items|), Key(r), r)
    ensures NewestTogether(items, n) && EntryFor(items, n, r) && Together(r, n) && r.createdAt == n.createdAt
  {
    n :| Newest(Active(items, |items|), Key(r), n) && AnchoredAs(Active(items, |items|), Key(r), n, r);
    NewestAgrees(items, n);
    AnchoredAgrees(items, n, r);
  }

  ghost predicate ShownAs(out: seq<Item>, key: string) {
    exists r :: r in out && Key(r) == key
  }

  ghost predicate AllShown(active: seq<Item>, out: seq<Item>) {
    forall x :: x in active ==> ShownAs(out, Key(x))
  }

  ghost predicate AllStand(active: seq<Item>, out: seq<Item>) {
    forall r :: r in out ==> StandsFor(active, Key(r), r)
  }

  ghost predicate KeysDiffer(out: seq<Item>) {
    forall i, j :: 0 <= i < j < |out| ==> Key(out[i]) != Key(out[j])
  }

  lemma DeduplicatedParts(items: seq<Item>)
    ensures var active, out := Active(items, |items|), Deduplicated(items);
      AllShown(active, out) && AllStand(active, out) && KeysDiffer(out)
  {
    DeduplicatedFacts(items);
    assert AllShown(Active(items, |items|), Deduplicated(items)) by {
      forall x | x in Active(items, |items|) ensures ShownAs(Deduplicated(items), Key(x)) {
      }
    }
  }

  lemma EntryOf(items: seq<Item>, x: Item) returns (r: Item)
    requires Shown(items, x)
    ensures r in Deduplicated(items) && Together(r, x) && x.createdAt <= r.createdAt
  {
    DeduplicatedParts(items);
    ActiveIsShown(items);
    assert ShownAs(Deduplicated(items), Key(x));
    r :| r in Deduplicated(items) && Key(r) == Key(x);
    TogetherIsKey(r, x);
    var n := NewestBehind(items, r);
    assert Together(x, n);
  }

  /**
   * No two entries belong together; every entry shows the newest of the unarchived items it belongs with, and every
   * unarchived item has the entry it belongs with.
   */
  lemma OneEntryPerGroup(items: seq<Item>)
    ensures var out := Deduplicated(items);
      && (forall i, j :: 0 <= i < j < |out| ==> !Together(out[i], out[j]))
      && (forall r :: r in out ==> IsEntry(items, r))
      && (forall x :: Shown(items, x) ==> exists r :: r in out && Together(r, x) && x.createdAt <= r.createdAt)
  {
    var out := Deduplicated(items);
    DeduplicatedParts(items);
    forall i, j | 0 <= i < j < |out| ensures !Together(out[i], out[j]) {
      TogetherIsKey(out[i], out[j]);
    }
    forall r | r in out ensures IsEntry(items, r) {
      var n := NewestBehind(items, r);
    }
    forall x | Shown(items, x) ensures exists r :: r in out && Together(r, x) && x.createdAt <= r.createdAt {
      var r := EntryOf(items, x);
    }
  }

  /** An unarchived item of this issue, or one without an issue that has the issue's id for its own. */
  ghost predicate OfIssue(items: seq<Item>, issue: string, x: Item) {
    Shown(items, x) && x.issueId == Some(issue)
  }

  ghost predicate Namesake(items: seq<Item>, issue: string, x: Item) {
    Shown(items, x) && x.issueId.None? && x.id == issue
  }

  /** An issue has one entry at most, as new as its newest item, and it has one if no namesake is as new. */
  lemma OneEntryPerIssue(items: seq<Item>, issue: string)
    ensures var out := Deduplicated(items);
      && (forall i, j :: 0 <= i < j < |out| ==> !(out[i].issueId == Some(issue) && out[j].issueId == Some(issue)))
      && (forall r :: r in out && r.issueId == Some(issue) ==> NewestOfIssue(items, issue, r))
      && (forall x :: OfIssue(items, issue, x) && (forall y :: Namesake(items, issue, y) ==> y.createdAt < x.createdAt) ==>
           exists r :: r in out && r.issueId == Some(issue))
  {
    var out := Deduplicated(items);
    OneEntryPerGroup(items);
    forall r | r in out && r.issueId == Some(issue) ensures NewestOfIssue(items, issue, r) {
      EntryIsNewest(items, issue, r);
    }
    forall x | OfIssue(items, issue, x) && (forall y :: Namesake(items, issue, y) ==> y.createdAt < x.createdAt)
      ensures exists r :: r in out && r.issueId == Some(issue)
    {
      var r := IssueHasEntry(items, issue, x);
    }
  }

  lemma IssueHasEntry(items: seq<Item>, issue: string, x: Item) returns (r: Item)
    requires OfIssue(items, issue, x) && forall y :: Namesake(items, issue, y) ==> y.createdAt < x.createdAt
    ensures r in Deduplicated(items) && r.issueId == Some(issue)
  {
    r := EntryOf(items, x);
    OneEntryPerGroup(items);
    var n := ShownBy(items, r);
    IssueOrNamesake(items, issue, x, n);
  }

  lemma IssueOrNamesake(items: seq<Item>, issue: string, x: Item, n: Item)
    requires OfIssue(items, issue, x) && Shown(items, n) && Together(n, x)
    ensures OfIssue(items, issue, n) || Namesake(items, issue, n)
  {
  }

  ghost predicate Alone(items: seq<Item>, x: Item) {
    forall y :: Shown(items, y) && Together(y, x) ==> y == x
  }

  /** An item without an issue has an entry of its own, unless its id is another one's issue or id. */
  lemma LoneItemIsShown(items: seq<Item>, x: Item)
    requires Shown(items, x) && x.issueId.None? && Alone(items, x)
    ensures x in Deduplicated(items)
  {
    var r := EntryOf(items, x);
    DeduplicatedParts(items);
    var n := NewestBehind(items, r);
    TogetherIsKey(r, x);
    TogetherIsKey(r, n);
    TogetherIsKey(n, x);
    AloneShowsItself(items, x, r);
  }

  lemma AloneShowsItself(items: seq<Item>, x: Item, r: Item)
    requires Alone(items, x) && EntryFor(items, x, r)
    ensures r == x
  {
    if !(x.details.Some? && x.details.value.commentId.Some?) {
      assert NoneAnchored(items, x);
    }
  }

  /** r shows an item of the issue, and nothing of that issue or of its namesakes is newer. */
  ghost predicate NewestOfIssue(items: seq<Item>, issue: string, r: Item) {
    && (exists n :: OfIssue(items, issue, n) && n.createdAt == r.createdAt && n.id == r.id)
    && forall x :: OfIssue(items, issue, x) || Namesake(items, issue, x) ==> x.createdAt <= r.createdAt
  }

  lemma EntryIsNewest(items: seq<Item>, issue: string, r: Item)
    requires IsEntry(items, r) && r.issueId == Some(issue)
    ensures NewestOfIssue(items, issue, r)
  {
    var n := ShownBy(items, r);
    assert OfIssue(items, issue, n);
    forall x | OfIssue(items, issue, x) || Namesake(items, issue, x) ensures x.createdAt <= r.createdAt {
      assert Shown(items, x) && Together(x, n);
    }
  }

  lemma ShownBy(items: seq<Item>, r: Item) returns (n: Item)
    requires IsEntry(items, r)
    ensures NewestTogether(items, n) && n.issueId == r.issueId && n.id == r.id && n.createdAt == r.createdAt
  {
    n :| NewestTogether(items, n) && EntryFor(items, n, r);
  }
}
