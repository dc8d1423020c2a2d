/** apps/mobile/data/viewed-issues-store.ts: recently viewed issues: at most ten per workspace, most recent first. */
module ViewedIssues {
  import opened Common

  const CAPACITY: nat := 10

  datatype Event = Push(ws: string, id: string) | Remove(ws: string, id: string)

  type State = map<string, seq<string>>

  function Take(ids: seq<string>, n: nat): seq<string> {
    if |ids| <= n then ids else ids[..n]
  }

  function IdsIn(s: State, ws: string): seq<string> {
    if ws in s then s[ws] else []
  }

  /** One update of the store. */
  function After(s: State, e: Event): State {
    match e
    case Push(ws, id) => s[ws := Take([id] + Without(IdsIn(s, ws), id), CAPACITY)]
    case Remove(ws, id) => if ws in s then s[ws := Without(s[ws], id)] else s
  }

  function Run(events: seq<Event>): State {
    if events == [] then map[] else After(Run(events[..|events| - 1]), events[|events| - 1])
  }

  /** The whole history of a workspace without any bound: distinct ids, most recent first. */
  function Recency(events: seq<Event>, ws: string): seq<string> {
    if events == [] then []
    else
      var before, e := Recency(events[..|events| - 1], ws), events[|events| - 1];
      if e.ws != ws then before
      else if e.Push? then [e.id] + Without(before, e.id)
      else Without(before, e.id)
  }

  /** How often the workspace had an id removed. */
  function Removals(events: seq<Event>, ws: string): nat {
    if events == [] then 0
    else Removals(events[..|events| - 1], ws) + if events[|events| - 1].Remove? && events[|events| - 1].ws == ws then 1 else 0
  }

  function Of(events: seq<Event>, ws: string): seq<Event> {
    if events == [] then []
    else Of(events[..|events| - 1], ws) + if events[|events| - 1].ws == ws then [events[|events| - 1]] else []
  }

  lemma {:induction false} WithoutFacts(ids: seq<string>, id: string)
    requires Distinct(ids)
    ensures Distinct(Without(ids, id))
    ensures |Without(ids, id)| == |ids| - if id in ids then 1 else 0
  {
    if ids != [] {
      var rest := ids[1..];
      assert ids == [ids[0]] + rest;
      assert ids[0] !in rest;
      WithoutFacts(rest, id);
      WithoutMembers(rest, id);
    }
  }

  lemma {:induction false} WithoutPrefix(ids: seq<string>, n: nat, id: string)
    requires Distinct(ids) && n <= |ids|
    ensures Without(ids[..n], id) <= Without(ids, id)
  {
    if n > 0 {
      assert ids[..n][0] == ids[0] && ids[..n][1..] == ids[1..][..n - 1];
      WithoutPrefix(ids[1..], n - 1, id);
    }
  }

  lemma {:induction false} RecencyDistinct(events: seq<Event>, ws: string)
    ensures Distinct(Recency(events, ws))
  {
    if events != [] {
      var before, e := Recency(events[..|events| - 1], ws), events[|events| - 1];
      RecencyDistinct(events[..|events| - 1], ws);
      WithoutFacts(before, e.id);
      WithoutMembers(before, e.id);
      assert e.ws == ws && e.Push? ==> Recency(events, ws) == [e.id] + Without(before, e.id);
    }
  }

  /** The workspace's last event about x is this push. */
  ghost predicate LastPushed(events: seq<Event>, ws: string, x: string, k: nat) {
    k < |events| && events[k] == Push(ws, x) &&
    forall j :: k < j < |events| ==> !(events[j].ws == ws && events[j].id == x)
  }

  ghost predicate Remembered(events: seq<Event>, ws: string, x: string) {
    exists k: nat :: LastPushed(events, ws, x, k)
  }

  lemma LastPushedSnoc(events: seq<Event>, ws: string, x: string, k: nat)
    requires events != []
    ensures var before, e := events[..|events| - 1], events[|events| - 1];
      LastPushed(events, ws, x, k) <==>
        if k == |events| - 1 then e == Push(ws, x)
        else LastPushed(before, ws, x, k) && !(e.ws == ws && e.id == x)
  {
  }

  /** The ids whose last event was a push, later pushes first. */
  ghost predicate LatestFirst(events: seq<Event>, ws: string, ids: seq<string>) {
    && (forall x :: x in ids <==> Remembered(events, ws, x))
    && (forall i, j :: 0 <= i < j < |ids| ==> PushedAfter(events, ws, ids[i], ids[j]))
  }

  ghost predicate PushedAfter(events: seq<Event>, ws: string, x: string, y: string) {
    forall k: nat, m: nat :: LastPushed(events, ws, x, k) && LastPushed(events, ws, y, m) ==> m < k
  }

  /** The history is what its name says. */
  lemma {:induction false} RecencyExactly(events: seq<Event>, ws: string)
    ensures LatestFirst(events, ws, Recency(events, ws))
  {
    if events != [] {
      var before, e := events[..|events| - 1], events[|events| - 1];
      RecencyExactly(before, ws);
      if e.ws != ws {
        OtherEvent(events, ws, Recency(before, ws));
      } else {
        DroppedId(events, ws, Recency(before, ws));
        if e.Push? {
          PushedFirst(events, ws, Without(Recency(before, ws), e.id));
        }
      }
    }
  }

  lemma OtherEvent(events: seq<Event>, ws: string, ids: seq<string>)
    requires events != [] && events[|events| - 1].ws != ws && LatestFirst(events[..|events| - 1], ws, ids)
    ensures LatestFirst(events, ws, ids)
  {
    var before := events[..|events| - 1];
    forall x, k: nat ensures LastPushed(events, ws, x, k) <==> LastPushed(before, ws, x, k) {
      LastPushedSnoc(events, ws, x, k);
    }
    forall x ensures Remembered(events, ws, x) <==> Remembered(before, ws, x) {
      if k: nat :| LastPushed(before, ws, x, k) {
        assert LastPushed(events, ws, x, k);
      }
    }
    forall i, j | 0 <= i < j < |ids| ensures PushedAfter(events, ws, ids[i], ids[j]) {
      assert PushedAfter(before, ws, ids[i], ids[j]);
    }
  }

  /** All but the id concerned stay as they were. */
  ghost predicate LatestBut(events: seq<Event>, ws: string, id: string, ids: seq<string>) {
    && (forall x :: x in ids <==> x != id && Remembered(events, ws, x))
    && (forall i, j :: 0 <= i < j < |ids| ==> PushedAfter(events, ws, ids[i], ids[j]))
  }

  lemma DroppedId(events: seq<Event>, ws: string, ids: seq<string>)
    requires events != [] && events[|events| - 1].ws == ws && LatestFirst(events[..|events| - 1], ws, ids)
    ensures LatestBut(events, ws, events[|events| - 1].id, Without(ids, events[|events| - 1].id))
    ensures events[|events| - 1].Remove? ==> LatestFirst(events, ws, Without(ids, events[|events| - 1].id))
  {
    var before, e := events[..|events| - 1], events[|events| - 1];
    var rest := Without(ids, e.id);
    WithoutMembers(ids, e.id);
    forall x, k: nat
      ensures LastPushed(events, ws, x, k) <==>
        if x == e.id then e.Push? && k == |events| - 1 else LastPushed(before, ws, x, k)
    {
      LastPushedSnoc(events, ws, x, k);
    }
    forall i, j | 0 <= i < j < |rest| ensures PushedAfter(events, ws, rest[i], rest[j]) {
      var p, q := WithoutOrder(ids, e.id, i, j);
      assert rest[i] in rest && rest[j] in rest;
      assert PushedAfter(before, ws, ids[p], ids[q]);
    }
  }

  lemma {:induction false} WithoutOrder(ids: seq<string>, id: string, i: nat, j: nat) returns (p: nat, q: nat)
    requires i < j < |Without(ids, id)|
    ensures p < q < |ids| && ids[p] == Without(ids, id)[i] && ids[q] == Without(ids, id)[j]
  {
    if ids[0] == id {
      p, q := WithoutOrder(ids[1..], id, i, j);
      p, q := p + 1, q + 1;
    } else if i == 0 {
      WithoutMembers(ids[1..], id);
      var rest := Without(ids[1..], id);
      assert rest[j - 1] in rest;
      p := 0;
      q :| 0 < q < |ids| && ids[q] == rest[j - 1];
    } else {
      p, q := WithoutOrder(ids[1..], id, i - 1, j - 1);
      p, q := p + 1, q + 1;
    }
  }

  lemma PushedFirst(events: seq<Event>, ws: string, rest: seq<string>)
    requires events != [] && events[|events| - 1].Push? && events[|events| - 1].ws == ws
    requires LatestBut(events, ws, events[|events| - 1].id, rest)
    ensures LatestFirst(events, ws, [events[|events| - 1].id] + rest)
  {
    var id, ids := events[|events| - 1].id, [events[|events| - 1].id] + rest;
    assert LastPushed(events, ws, id, |events| - 1);
    assert Remembered(events, ws, id);
    forall i, j | 0 <= i < j < |ids| ensures PushedAfter(events, ws, ids[i], ids[j]) {
      if i == 0 {
        assert ids[j] in rest;
      } else {
        assert PushedAfter(events, ws, rest[i - 1], rest[j - 1]);
      }
    }
  }

  /** A list that keeps up with a history: a prefix of it, short only for want of history, of room, or by removals. */
  ghost predicate KeepsUp(ids: seq<string>, history: seq<string>, removals: nat) {
    ids <= history && |ids| <= CAPACITY && |ids| + removals >= |Take(history, CAPACITY)|
  }

  lemma PushKeepsUp(ids: seq<string>, history: seq<string>, removals: nat, id: string)
    requires Distinct(history) && KeepsUp(ids, history, removals)
    ensures KeepsUp(Take([id] + Without(ids, id), CAPACITY), [id] + Without(history, id), removals)
  {
    assert ids == history[..|ids|];
    WithoutPrefix(history, |ids|, id);
    WithoutFacts(history, id);
    WithoutFacts(ids, id);
    var a, b := Without(ids, id), Without(history, id);
    assert [id] + a <= [id] + b;
    assert id in ids ==> id in history;
    if id in history && id !in ids {
      assert |ids| < |history|;
    }
  }

  lemma RemoveKeepsUp(ids: seq<string>, history: seq<string>, removals: nat, id: string)
    requires Distinct(history) && KeepsUp(ids, history, removals)
    ensures KeepsUp(Without(ids, id), Without(history, id), removals + 1)
  {
    assert ids == history[..|ids|];
    WithoutPrefix(history, |ids|, id);
    WithoutFacts(history, id);
    WithoutFacts(ids, id);
  }

  /** In every run, across workspaces and with removals, each list is the most recent part of its own history. */
  lemma {:induction false} ListsKeepUp(events: seq<Event>, ws: string)
    ensures KeepsUp(IdsIn(Run(events), ws), Recency(events, ws), Removals(events, ws))
    ensures Distinct(IdsIn(Run(events), ws))
  {
    if events != [] {
      var before, e := events[..|events| - 1], events[|events| - 1];
      ListsKeepUp(before, ws);
      RecencyDistinct(before, ws);
      RecencyDistinct(events, ws);
      var ids, history := IdsIn(Run(before), ws), Recency(before, ws);
      if e.ws == ws {
        if e.Push? {
          PushKeepsUp(ids, history, Removals(before, ws), e.id);
        } else {
          RemoveKeepsUp(ids, history, Removals(before, ws), e.id);
          assert IdsIn(Run(events), ws) == Without(ids, e.id);
        }
      }
      PrefixDistinct(IdsIn(Run(events), ws), Recency(events, ws));
    }
  }

  lemma PrefixDistinct(a: seq<string>, b: seq<string>)
    requires Distinct(b) && a <= b
    ensures Distinct(a)
  {
    assert forall i :: 0 <= i < |a| ==> a[i] == b[i];
  }

  /** Without removals a list is exactly the ten most recent ids of its history. */
  lemma PushOnlyIsFirstTen(events: seq<Event>, ws: string)
    requires Removals(events, ws) == 0
    ensures IdsIn(Run(events), ws) == Take(Recency(events, ws), CAPACITY)
  {
    ListsKeepUp(events, ws);
  }

  /** One workspace's list depends on nothing that happens in others. */
  lemma {:induction false} OthersDoNotMatter(events: seq<Event>, ws: string)
    ensures IdsIn(Run(events), ws) == IdsIn(Run(Of(events, ws)), ws)
  {
    if events != [] {
      var before, e := events[..|events| - 1], events[|events| - 1];
      OthersDoNotMatter(before, ws);
      var mine := Of(before, ws);
      if e.ws != ws {
        assert Of(events, ws) == mine + [] == mine;
      } else {
        assert Of(events, ws) == mine + [e];
        assert (mine + [e])[..|mine|] == mine;
      }
    }
  }

  // ---------------------------------------------------------------------------------------------
  // What is in a list, removals or not
  // ---------------------------------------------------------------------------------------------

  /** The ten most recent of the whole history. */
  function Top(events: seq<Event>, ws: string): seq<string> {
    Take(Recency(events, ws), CAPACITY)
  }

  /** Event k put x into the list, nothing has concerned it since, and it has been among the ten most recent ever since. */
  ghost predicate KeptSince(events: seq<Event>, ws: string, x: string, k: nat) {
    && k < |events| && events[k] == Push(ws, x)
    && (forall j :: k < j < |events| && events[j].ws == ws ==> events[j].id != x)
    && (forall n :: k < n <= |events| ==> x in Top(events[..n], ws))
  }

  ghost predicate Kept(events: seq<Event>, ws: string, x: string) {
    exists k :: KeptSince(events, ws, x, k)
  }

  /** The same, event by event. */
  ghost predicate Alive(events: seq<Event>, ws: string, x: string) {
    events != [] && (
      var before, e := events[..|events| - 1], events[|events| - 1];
      if e == Push(ws, x) then true
      else if e == Remove(ws, x) then false
      else Alive(before, ws, x) && x in Top(events, ws))
  }

  lemma KeptSnoc(events: seq<Event>, ws: string, x: string, k: nat)
    requires k + 1 < |events|
    ensures var before, e := events[..|events| - 1], events[|events| - 1];
      KeptSince(events, ws, x, k) <==> KeptSince(before, ws, x, k) && (e.ws == ws ==> e.id != x) && x in Top(events, ws)
  {
    var before := events[..|events| - 1];
    assert events[..|events|] == events;
    assert forall n :: 0 <= n <= |before| ==> before[..n] == events[..n];
  }

  lemma {:induction false} AliveIsKept(events: seq<Event>, ws: string, x: string)
    ensures Alive(events, ws, x) <==> Kept(events, ws, x)
  {
    if events != [] {
      var before, last, e := events[..|events| - 1], |events| - 1, events[|events| - 1];
      AliveIsKept(before, ws, x);
      if e == Push(ws, x) {
        PushedIsTop(events, ws, x);
        assert KeptSince(events, ws, x, last);
      } else {
        assert !KeptSince(events, ws, x, last);
        forall k: nat | k < last
          ensures KeptSince(events, ws, x, k) <==>
            KeptSince(before, ws, x, k) && (e.ws == ws ==> e.id != x) && x in Top(events, ws)
        {
          KeptSnoc(events, ws, x, k);
        }
      }
    }
  }

  lemma PushedIsTop(events: seq<Event>, ws: string, x: string)
    requires events != [] && events[|events| - 1] == Push(ws, x)
    ensures x in Top(events, ws) && Top(events[..|events|], ws) == Top(events, ws)
  {
    assert events[..|events|] == events;
    assert Recency(events, ws)[0] == x;
    assert Top(events, ws)[0] == x;
  }

  lemma PrefixMember(a: seq<string>, b: seq<string>, n: nat, x: string)
    requires a <= b && Distinct(b)
    ensures x in Take(a, n) <==> x in a && x in Take(b, n)
  {
    if x in a && x in Take(b, n) {
      var i :| 0 <= i < |a| && a[i] == x;
      var j :| 0 <= j < |Take(b, n)| && Take(b, n)[j] == x;
      assert b[i] == x && b[j] == x;
      assert Take(a, n)[i] == x;
    }
    if x in Take(a, n) {
      var i :| 0 <= i < |Take(a, n)| && Take(a, n)[i] == x;
      assert a[i] == x && Take(b, n)[i] == x;
    }
  }

  /** One event's effect on whether an id that it does not concern is in the list. */
  lemma OthersMove(ids: seq<string>, history: seq<string>, removals: nat, id: string, x: string)
    requires Distinct(history) && KeepsUp(ids, history, removals) && x != id
    ensures x in Take([id] + Without(ids, id), CAPACITY) <==> x in ids && x in Take([id] + Without(history, id), CAPACITY)
    ensures x in Without(ids, id) <==> x in ids && x in Take(Without(history, id), CAPACITY)
  {
    PushKeepsUp(ids, history, removals, id);
    assert ids == history[..|ids|];
    WithoutPrefix(history, |ids|, id);
    WithoutMembers(ids, id);
    WithoutFacts(history, id);
    WithoutMembers(history, id);
    WithoutFacts(ids, id);
    PrefixMember([id] + Without(ids, id), [id] + Without(history, id), CAPACITY, x);
    PrefixMember(Without(ids, id), Without(history, id), CAPACITY, x);
    assert Take(Without(ids, id), CAPACITY) == Without(ids, id);
  }

  lemma {:induction false} InListIsAlive(events: seq<Event>, ws: string, x: string)
    ensures x in IdsIn(Run(events), ws) <==> Alive(events, ws, x)
  {
    if events != [] {
      var before, e := events[..|events| - 1], events[|events| - 1];
      InListIsAlive(before, ws, x);
      ListsKeepUp(before, ws);
      ListsKeepUp(events, ws);
      RecencyDistinct(before, ws);
      var ids, history := IdsIn(Run(before), ws), Recency(before, ws);
      if e.ws != ws {
        if x in ids {
          InTop(ids, history, Removals(before, ws), x);
        }
      } else if e.id != x {
        OthersMove(ids, history, Removals(before, ws), e.id, x);
        assert e.Remove? ==> IdsIn(Run(events), ws) == Without(ids, e.id);
      } else if e.Push? {
        assert IdsIn(Run(events), ws)[0] == x;
      } else {
        WithoutMembers(ids, x);
        assert IdsIn(Run(events), ws) == Without(ids, x);
      }
    }
  }

  lemma InTop(ids: seq<string>, history: seq<string>, removals: nat, x: string)
    requires KeepsUp(ids, history, removals) && x in ids
    ensures x in Take(history, CAPACITY)
  {
    var i :| 0 <= i < |ids| && ids[i] == x;
    assert Take(history, CAPACITY)[i] == x;
  }

  /** An id is in the list exactly if it has been among the ten most recent ever since it was last put in. */
  lemma InListExactly(events: seq<Event>, ws: string, x: string)
    ensures x in IdsIn(Run(events), ws) <==> Kept(events, ws, x)
  {
    InListIsAlive(events, ws, x);
    AliveIsKept(events, ws, x);
  }

  /** The list is the ten most recent exactly if each of those has been among them ever since it was last put in. */
  lemma FirstTenExactly(events: seq<Event>, ws: string)
    ensures IdsIn(Run(events), ws) == Top(events, ws) <==> forall x :: x in Top(events, ws) ==> Kept(events, ws, x)
  {
    forall x ensures x in IdsIn(Run(events), ws) <==> Kept(events, ws, x) {
      InListExactly(events, ws, x);
    }
    ListsKeepUp(events, ws);
    RecencyDistinct(events, ws);
    SameIfCovers(IdsIn(Run(events), ws), Recency(events, ws));
  }

  lemma SameIfCovers(ids: seq<string>, history: seq<string>)
    requires ids <= history && |ids| <= CAPACITY && Distinct(history)
    ensures ids == Take(history, CAPACITY) <==> forall x :: x in Take(history, CAPACITY) ==> x in ids
  {
    var top := Take(history, CAPACITY);
    if forall x :: x in top ==> x in ids {
      PrefixDistinct(top, history);
      PrefixDistinct(ids, history);
      DistinctFits(top, Elements(ids));
      DistinctFits(ids, Elements(ids));
    }
  }

  // ---------------------------------------------------------------------------------------------
  // A gap, and its end
  // ---------------------------------------------------------------------------------------------

  function Pushes(ids: seq<string>): seq<Event> {
    seq(|ids|, i requires 0 <= i < |ids| => Push("w", ids[i]))
  }

  function Reversed(ids: seq<string>): seq<string> {
    if ids == [] then [] else [ids[|ids| - 1]] + Reversed(ids[..|ids| - 1])
  }

  lemma {:induction false} WithoutAbsent(ids: seq<string>, x: string)
    requires x !in ids
    ensures Without(ids, x) == ids
  {
    if ids != [] {
      WithoutAbsent(ids[1..], x);
    }
  }

  lemma {:induction false} PushesFacts(ids: seq<string>)
    requires Distinct(ids)
    ensures Recency(Pushes(ids), "w") == Reversed(ids) && Removals(Pushes(ids), "w") == 0
    ensures |Reversed(ids)| == |ids| && Distinct(Reversed(ids)) && forall x :: x in Reversed(ids) <==> x in ids
  {
    if ids != [] {
      var front, last := ids[..|ids| - 1], ids[|ids| - 1];
      assert Pushes(ids)[..|ids| - 1] == Pushes(front);
      PushesFacts(front);
      assert ids == front + [last] && last !in front;
      WithoutAbsent(Reversed(front), last);
    }
  }

  lemma PushesThenTop(ids: seq<string>)
    requires |ids| == 11 && Distinct(ids)
    ensures |Reversed(ids)| == 11 && Reversed(ids)[0] == ids[10]
    ensures IdsIn(Run(Pushes(ids)), "w") == Reversed(ids)[..10]
  {
    PushesFacts(ids);
    PushOnlyIsFirstTen(Pushes(ids), "w");
  }

  /** Eleven issues are viewed and the last is deleted: the list has nine, though ten are remembered. */
  lemma RemovalLeavesAGap(ids: seq<string>)
    requires |ids| == 11 && Distinct(ids)
    ensures |Reversed(ids)| == 11
    ensures var events := Pushes(ids) + [Remove("w", ids[10])];
      IdsIn(Run(events), "w") == Reversed(ids)[1..10] && Recency(events, "w") == Reversed(ids)[1..]
  {
    var events, history := Pushes(ids) + [Remove("w", ids[10])], Reversed(ids);
    assert events[..|events| - 1] == Pushes(ids);
    PushesFacts(ids);
    PushesThenTop(ids);
    HeadRemoved(history, 10);
    HeadRemoved(history, 11);
    assert history[..11] == history;
  }

  /** One more view of a new issue and the list is the ten most recent again. */
  lemma NextViewFillsTheGap(ids: seq<string>, another: string)
    requires |ids| == 11 && Distinct(ids) && another !in ids
    ensures var events := Pushes(ids) + [Remove("w", ids[10])] + [Push("w", another)];
      |IdsIn(Run(events), "w")| == 10 && IdsIn(Run(events), "w") == Top(events, "w")
  {
    RemovalLeavesAGap(ids);
    PushesFacts(ids);
    var history := Reversed(ids)[1..];
    assert forall x :: x in history ==> x in Reversed(ids);
    assert Reversed(ids)[1..10] == history[..9];
    NewViewFills(Pushes(ids) + [Remove("w", ids[10])], "w", history, another);
  }

  /** A list of nine out of ten remembered takes in one more. */
  lemma NewViewFills(events: seq<Event>, ws: string, history: seq<string>, another: string)
    requires |history| == 10 && Recency(events, ws) == history && IdsIn(Run(events), ws) == history[..9]
    requires another !in history
    ensures var more := events + [Push(ws, another)];
      |IdsIn(Run(more), ws)| == 10 && IdsIn(Run(more), ws) == Top(more, ws)
  {
    var more := events + [Push(ws, another)];
    assert more[..|more| - 1] == events;
    assert forall x :: x in history[..9] ==> x in history;
    WithoutAbsent(history[..9], another);
    WithoutAbsent(history, another);
    assert ([another] + history)[..10] == [another] + history[..9];
  }

  lemma HeadRemoved(ids: seq<string>, n: nat)
    requires Distinct(ids) && 0 < n <= |ids|
    ensures Without(ids[..n], ids[0]) == ids[1..n]
  {
    assert ids[..n][1..] == ids[1..n];
    WithoutAbsent(ids[1..n], ids[0]);
  }

  /** The store, with the log of what was done to it. */
  class Store {
    var byWorkspace: State
    ghost var log: seq<Event>

    ghost predicate Valid()
      reads this
    {
      byWorkspace == Run(log)
    }

    constructor ()
      ensures Valid() && log == []
    {
      byWorkspace := map[];
      log := [];
    }

    method Push(ws: string, id: string)
      requires Valid()
      modifies this
      ensures Valid() && log == old(log) + [Event.Push(ws, id)]
    {
      var prev := if ws in byWorkspace then byWorkspace[ws] else [];
      var next := [id] + Without(prev, id);
      if |next| > CAPACITY {
        next := next[..CAPACITY];
      }
      byWorkspace := byWorkspace[ws := next];
      log := log + [Event.Push(ws, id)];
      assert log[..|log| - 1] == old(log);
    }

    method Remove(ws: string, id: string)
      requires Valid()
      modifies this
      ensures Valid() && log == old(log) + [Event.Remove(ws, id)]
    {
      if ws in byWorkspace {
        byWorkspace := byWorkspace[ws := Without(byWorkspace[ws], id)];
      }
      log := log + [Event.Remove(ws, id)];
      assert log[..|log| - 1] == old(log);
    }

    /** selectViewedIssueIds: what a screen shows is distinct, at most ten, and the most recent of what was viewed. */
    method Select(ws: Option<string>) returns (ids: seq<string>)
      requires Valid()
      ensures ws.None? || ws.value == "" ==> ids == []
      ensures ws.Some? && ws.value != "" ==>
        Distinct(ids) && KeepsUp(ids, Recency(log, ws.value), Removals(log, ws.value))
    {
      if ws.None? || ws.value == "" {
        return [];
      }
      ids := if ws.value in byWorkspace then byWorkspace[ws.value] else [];
      ListsKeepUp(log, ws.value);
    }
  }
}
