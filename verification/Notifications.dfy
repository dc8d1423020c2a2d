/**
 * core/cmd/server/notification_listeners.go: inbox rows for the subscribers of an issue, and for those of
 * its parent when the event bubbles up.
 */
module Notifications {
  import opened Common

  datatype Subscriber = Subscriber(userType: string, userId: string)

  /** One inbox row: for whom, of which kind, about which issue, by whom. */
  datatype Row = Row(recipientType: string, recipient: string, kind: string, issue: string, actor: string)

  /** What one insert does: stores the row, refuses it, or stores it and loses the answer. */
  datatype Write = Stored | Rejected | StoredUnseen

  type Prefs = map<string, map<string, string>>

  /** What the database gives one pass: no list or no preferences when the query fails. */
  datatype Pass = Pass(subs: Option<seq<Subscriber>>, prefs: Option<Prefs>, writes: string -> Write)

  datatype ParentLookup = LookupFails | NoParent | Parent(pass: Pass)

  /** Who acts, whom to leave out, and the row to write. */
  datatype Notice = Notice(actor: string, exclude: set<string>, kind: string, issue: string)

  const PARENT_BUBBLE: set<string> := {"status_changed"}

  const GROUPS: map<string, string> := map[
    "issue_assigned" := "assignments",
    "unassigned" := "assignments",
    "assignee_changed" := "assignments",
    "status_changed" := "status_changes",
    "new_comment" := "comments",
    "mentioned" := "comments",
    "priority_changed" := "updates",
    "start_date_changed" := "updates",
    "due_date_changed" := "updates",
    "task_completed" := "agent_activity",
    "task_failed" := "agent_activity",
    "agent_blocked" := "agent_activity",
    "agent_completed" := "agent_activity"
  ]

  function IsNotifMuted(prefs: map<string, string>, kind: string): bool {
    kind in GROUPS && GROUPS[kind] in prefs && prefs[GROUPS[kind]] == "muted"
  }

  /** Muting a group mutes the kinds of that group and no others, and kinds without a group never. */
  lemma MutingAGroup(prefs: map<string, string>, group: string, kind: string)
    ensures IsNotifMuted(prefs[group := "muted"], kind) <==>
      IsNotifMuted(prefs, kind) || (kind in GROUPS && GROUPS[kind] == group)
    ensures IsNotifMuted(map[], kind) == false
  {
  }

  function LoadUserPrefs(prefs: Option<Prefs>, ids: seq<string>): Prefs {
    if ids == [] || prefs.None? then map[] else map id | id in prefs.value && id in ids :: prefs.value[id]
  }

  /** The user's stored preferences mute this kind, and the pass can read them. */
  predicate Muted(p: Pass, user: string, kind: string) {
    p.prefs.Some? && user in p.prefs.value && IsNotifMuted(p.prefs.value[user], kind)
  }

  /** The pass is to write a row for this user. */
  predicate Wants(p: Pass, n: Notice, user: string) {
    p.subs.Some? && Subscriber("member", user) in p.subs.value && Owed(p, n, user)
  }

  predicate Owed(p: Pass, n: Notice, user: string) {
    user != n.actor && user !in n.exclude && !Muted(p, user, n.kind)
  }

  function MemberIds(subs: seq<Subscriber>): seq<string> {
    if subs == [] then []
    else
      var last := subs[|subs| - 1];
      MemberIds(subs[..|subs| - 1]) + if last.userType == "member" then [last.userId] else []
  }

  /** The users an insert is tried for, in list order, as far as its outcome is one of those given. */
  function Reached(p: Pass, n: Notice, subs: seq<Subscriber>, outcomes: set<Write>): seq<string> {
    if subs == [] then []
    else
      var last := subs[|subs| - 1];
      Reached(p, n, subs[..|subs| - 1], outcomes) +
      if last.userType == "member" && Owed(p, n, last.userId) && p.writes(last.userId) in outcomes then [last.userId]
      else []
  }

  function Users(p: Pass, n: Notice, outcomes: set<Write>): seq<string> {
    if p.subs.None? then [] else Reached(p, n, p.subs.value, outcomes)
  }

  function Rows(n: Notice, users: seq<string>): seq<Row> {
    seq(|users|, i requires 0 <= i < |users| => Row("member", users[i], n.kind, n.issue, n.actor))
  }

  /** The row one subscriber gets. */
  function RowFor(p: Pass, n: Notice, sub: Subscriber, outcomes: set<Write>): seq<Row> {
    if sub.userType == "member" && Owed(p, n, sub.userId) && p.writes(sub.userId) in outcomes
    then [Row("member", sub.userId, n.kind, n.issue, n.actor)]
    else []
  }

  const KEPT: set<Write> := {Stored, StoredUnseen}

  /** Confirmed users are left out of the second pass. */
  function ForParent(n: Notice, notified: set<string>): Notice {
    n.(exclude := n.exclude + notified)
  }

  /** The users both passes store rows for, in order. */
  function Fanned(child: Pass, parent: ParentLookup, n: Notice, outcomes: set<Write>): seq<string> {
    Users(child, n, outcomes) +
    if n.kind in PARENT_BUBBLE && parent.Parent?
    then Users(parent.pass, ForParent(n, Elements(Users(child, n, {Stored}))), outcomes)
    else []
  }

  function Times(users: seq<string>, user: string): nat {
    multiset(users)[user]
  }

  lemma {:induction false} ReachedOnce(p: Pass, n: Notice, subs: seq<Subscriber>, outcomes: set<Write>, user: string)
    requires Distinct(subs)
    ensures Times(Reached(p, n, subs, outcomes), user) ==
      if Subscriber("member", user) in subs && Owed(p, n, user) && p.writes(user) in outcomes then 1 else 0
  {
    if subs != [] {
      var last, rest := subs[|subs| - 1], subs[..|subs| - 1];
      assert subs == rest + [last];
      assert last !in rest;
      ReachedOnce(p, n, rest, outcomes, user);
    }
  }

  /** Subscriptions are keyed by issue, user type and user, so a list names no one twice. */
  ghost predicate Keyed(p: Pass) {
    p.subs.Some? ==> Distinct(p.subs.value)
  }

  lemma UsersOnce(p: Pass, n: Notice, outcomes: set<Write>, user: string)
    requires Keyed(p)
    ensures Times(Users(p, n, outcomes), user) == if Wants(p, n, user) && p.writes(user) in outcomes then 1 else 0
    ensures user in Users(p, n, outcomes) <==> Wants(p, n, user) && p.writes(user) in outcomes
  {
    if p.subs.Some? {
      ReachedOnce(p, n, p.subs.value, outcomes, user);
    }
  }

  ghost predicate AllKeyed(child: Pass, parent: ParentLookup) {
    Keyed(child) && (parent.Parent? ==> Keyed(parent.pass))
  }

  /** The event reaches the user through the parent's list. */
  ghost predicate Bubbles(parent: ParentLookup, n: Notice, user: string) {
    n.kind in PARENT_BUBBLE && parent.Parent? && Wants(parent.pass, n, user)
  }

  /** How many rows each user gets, whatever fails: the second pass writes to those the first did not confirm. */
  lemma RowsExactly(child: Pass, parent: ParentLookup, n: Notice, user: string)
    requires AllKeyed(child, parent)
    ensures Times(Fanned(child, parent, n, KEPT), user) ==
      (if Wants(child, n, user) && child.writes(user) != Rejected then 1 else 0) +
      (if Bubbles(parent, n, user) && !(Wants(child, n, user) && child.writes(user) == Stored) &&
          parent.pass.writes(user) != Rejected then 1 else 0)
  {
    UsersOnce(child, n, KEPT, user);
    UsersOnce(child, n, {Stored}, user);
    if n.kind in PARENT_BUBBLE && parent.Parent? {
      UsersOnce(parent.pass, ForParent(n, Elements(Users(child, n, {Stored}))), KEPT, user);
    }
  }

  /** When every insert succeeds, each member subscribed to the child, the parent or both, who is not the actor,
      not excluded and not muted, gets exactly one row; nobody else gets any. */
  lemma ExactlyOne(child: Pass, parent: ParentLookup, n: Notice, user: string)
    requires AllKeyed(child, parent)
    requires child.writes(user) == Stored && (parent.Parent? ==> parent.pass.writes(user) == Stored)
    ensures Times(Fanned(child, parent, n, KEPT), user) ==
      if Wants(child, n, user) || Bubbles(parent, n, user) then 1 else 0
  {
    RowsExactly(child, parent, n, user);
  }

  /** Two rows for one user need a row that was stored without the first pass seeing it. */
  lemma TwiceExactly(child: Pass, parent: ParentLookup, n: Notice, user: string)
    requires AllKeyed(child, parent)
    ensures Times(Fanned(child, parent, n, KEPT), user) <= 2
    ensures Times(Fanned(child, parent, n, KEPT), user) == 2 <==>
      Wants(child, n, user) && child.writes(user) == StoredUnseen &&
      Bubbles(parent, n, user) && parent.pass.writes(user) != Rejected
  {
    RowsExactly(child, parent, n, user);
  }

  /** A refused insert for a subscriber of both is made good by the second pass. */
  lemma ParentMakesGood(child: Pass, parent: ParentLookup, n: Notice, user: string)
    requires AllKeyed(child, parent)
    requires Wants(child, n, user) && Bubbles(parent, n, user) && parent.pass.writes(user) == Stored
    requires child.writes(user) != StoredUnseen
    ensures Times(Fanned(child, parent, n, KEPT), user) == 1
  {
    RowsExactly(child, parent, n, user);
  }

  /** The actor, agents, excluded users and those whose read preferences mute the kind get nothing. */
  lemma NeverTo(child: Pass, parent: ParentLookup, n: Notice, user: string)
    requires AllKeyed(child, parent)
    requires user == n.actor || user in n.exclude ||
      (Muted(child, user, n.kind) && (parent.Parent? ==> Muted(parent.pass, user, n.kind))) ||
      ((child.subs.Some? ==> Subscriber("member", user) !in child.subs.value) &&
       (parent.Parent? && parent.pass.subs.Some? ==> Subscriber("member", user) !in parent.pass.subs.value))
    ensures user !in Fanned(child, parent, n, KEPT)
  {
    RowsExactly(child, parent, n, user);
    assert user in Fanned(child, parent, n, KEPT) ==> Times(Fanned(child, parent, n, KEPT), user) > 0;
  }

  /** Kinds that do not bubble reach only the child's own subscribers. */
  lemma OnlyStatusBubbles(child: Pass, parent: ParentLookup, n: Notice, user: string)
    requires AllKeyed(child, parent) && n.kind != "status_changed"
    ensures user in Fanned(child, parent, n, KEPT) ==> child.subs.Some? && Subscriber("member", user) in child.subs.value
    ensures Fanned(child, parent, n, KEPT) == Fanned(child, NoParent, n, KEPT)
  {
    UsersOnce(child, n, KEPT, user);
  }

  /** A mute that cannot be read does not hold: failing to load the preferences delivers to the muted too. */
  lemma UnreadMuteDelivers(subs: seq<Subscriber>, prefs: Prefs, n: Notice, user: string)
    requires Distinct(subs) && Subscriber("member", user) in subs && user != n.actor && user !in n.exclude
    requires user in prefs && IsNotifMuted(prefs[user], n.kind)
    ensures user !in Users(Pass(Some(subs), Some(prefs), u => Stored), n, KEPT)
    ensures user in Users(Pass(Some(subs), None, u => Stored), n, KEPT)
  {
    UsersOnce(Pass(Some(subs), Some(prefs), u => Stored), n, KEPT, user);
    UsersOnce(Pass(Some(subs), None, u => Stored), n, KEPT, user);
  }

  /** Who is told of a new assignee: the new one and the old one directly, everyone else as a subscriber. */
  datatype Direct = Direct(recipientType: string, recipient: string, prefs: Option<Prefs>, write: Write)

  predicate DirectWanted(d: Direct, actor: string, kind: string) {
    d.recipient != actor &&
    !(d.recipientType == "member" && d.prefs.Some? && d.recipient in d.prefs.value &&
      IsNotifMuted(d.prefs.value[d.recipient], kind))
  }

  function DirectRows(d: Direct, n: Notice, outcomes: set<Write>): seq<Row> {
    if DirectWanted(d, n.actor, n.kind) && d.write in outcomes
    then [Row(d.recipientType, d.recipient, n.kind, n.issue, n.actor)]
    else []
  }

  function OptionalRows(d: Option<Direct>, n: Notice, outcomes: set<Write>): seq<Row> {
    if d.None? then [] else DirectRows(d.value, n, outcomes)
  }

  function Assignees(newOne: Option<Direct>, oldOne: Option<Direct>): set<string> {
    (if newOne.Some? then {newOne.value.recipient} else {}) + (if oldOne.Some? then {oldOne.value.recipient} else {})
  }

  /** Only a previous assignee who is a member is told; any previous assignee is left out as a subscriber. */
  function OldMember(oldOne: Option<Direct>): Option<Direct> {
    if oldOne.Some? && oldOne.value.recipientType == "member" then oldOne else None
  }

  function AssigneeRows(child: Pass, newOne: Option<Direct>, oldOne: Option<Direct>, actor: string, issue: string,
                        outcomes: set<Write>): seq<Row>
  {
    var n := Notice(actor, Assignees(newOne, oldOne), "assignee_changed", issue);
    OptionalRows(newOne, Notice(actor, {}, "issue_assigned", issue), outcomes) +
    OptionalRows(OldMember(oldOne), Notice(actor, {}, "unassigned", issue), outcomes) +
    Rows(n, Users(child, n, outcomes))
  }

  function RowsTo(rows: seq<Row>, user: string): nat {
    if rows == [] then 0 else RowsTo(rows[1..], user) + if rows[0].recipient == user then 1 else 0
  }

  lemma {:induction false} RowsToConcat(a: seq<Row>, b: seq<Row>, user: string)
    ensures RowsTo(a + b, user) == RowsTo(a, user) + RowsTo(b, user)
  {
    if a == [] {
      assert a + b == b;
    } else {
      assert (a + b)[1..] == a[1..] + b;
      RowsToConcat(a[1..], b, user);
    }
  }

  lemma {:induction false} RowsToUsers(n: Notice, users: seq<string>, user: string)
    ensures RowsTo(Rows(n, users), user) == Times(users, user)
  {
    if users != [] {
      assert users == [users[0]] + users[1..];
      assert Rows(n, users)[1..] == Rows(n, users[1..]);
      RowsToUsers(n, users[1..], user);
    }
  }

  /** A reassignment tells each person once at most, unless the same person is taken off and put back on. */
  lemma ReassignmentTellsOnce(child: Pass, newOne: Option<Direct>, oldOne: Option<Direct>, actor: string,
                              issue: string, user: string)
    requires Keyed(child)
    ensures var rows := AssigneeRows(child, newOne, oldOne, actor, issue, KEPT);
      RowsTo(rows, user) <= 2 &&
      (RowsTo(rows, user) == 2 <==>
        newOne.Some? && OldMember(oldOne).Some? && newOne.value.recipient == user == oldOne.value.recipient &&
        DirectWanted(newOne.value, actor, "issue_assigned") && DirectWanted(oldOne.value, actor, "unassigned") &&
        newOne.value.write != Rejected && oldOne.value.write != Rejected)
  {
    var n := Notice(actor, Assignees(newOne, oldOne), "assignee_changed", issue);
    var a := OptionalRows(newOne, Notice(actor, {}, "issue_assigned", issue), KEPT);
    var b := OptionalRows(OldMember(oldOne), Notice(actor, {}, "unassigned", issue), KEPT);
    var c := Rows(n, Users(child, n, KEPT));
    RowsToConcat(a + b, c, user);
    RowsToConcat(a, b, user);
    RowsToUsers(n, Users(child, n, KEPT), user);
    UsersOnce(child, n, KEPT, user);
  }

  lemma NotBubbling(child: Pass, parent: ParentLookup, n: Notice, outcomes: set<Write>)
    requires n.kind !in PARENT_BUBBLE
    ensures Fanned(child, parent, n, outcomes) == Users(child, n, outcomes)
  {
  }

  /** The inbox table and the events published about it. */
  class Inbox {
    var rows: seq<Row>
    var published: seq<Row>

    /** One insert, with the event that follows when it is confirmed. */
    method CreateInboxItem(row: Row, write: Write) returns (confirmed: bool)
      modifies this
      ensures rows == old(rows) + if write in KEPT then [row] else []
      ensures published == old(published) + if write == Stored then [row] else []
      ensures confirmed == (write == Stored)
    {
      confirmed := write == Stored;
      if write != Rejected {
        rows := rows + [row];
      }
      if confirmed {
        published := published + [row];
      }
    }

    /** notifyIssueSubscribers: returns the users whose rows were confirmed. */
    method NotifyIssueSubscribers(p: Pass, n: Notice) returns (notified: set<string>)
      modifies this
      ensures rows == old(rows) + Rows(n, Users(p, n, KEPT))
      ensures published == old(published) + Rows(n, Users(p, n, {Stored}))
      ensures notified == Elements(Users(p, n, {Stored}))
    {
      notified := {};
      if p.subs.None? {
        return;
      }
      var subs := p.subs.value;
      var memberIds := CollectMembers(subs);
      var userPrefs := LoadUserPrefs(p.prefs, memberIds);
      var i := 0;
      while i < |subs|
        invariant i <= |subs|
        invariant rows == old(rows) + Rows(n, Reached(p, n, subs[..i], KEPT))
        invariant published == old(published) + Rows(n, Reached(p, n, subs[..i], {Stored}))
        invariant notified == Elements(Reached(p, n, subs[..i], {Stored}))
      {
        NextReached(p, n, subs, i, KEPT);
        NextReached(p, n, subs, i, {Stored});
        PrefsKnown(p, n, subs, i);
        Assoc(old(rows), Rows(n, Reached(p, n, subs[..i], KEPT)), RowFor(p, n, subs[i], KEPT));
        Assoc(old(published), Rows(n, Reached(p, n, subs[..i], {Stored})), RowFor(p, n, subs[i], {Stored}));
        var confirmed := NotifyOne(p, n, subs[i], userPrefs);
        if confirmed {
          notified := notified + {subs[i].userId};
        }
        i := i + 1;
      }
      assert subs[..i] == subs;
    }

    /** One turn of the loop over subscribers. */
    method NotifyOne(p: Pass, n: Notice, sub: Subscriber, userPrefs: Prefs) returns (confirmed: bool)
      requires sub.userType == "member" ==>
        (Muted(p, sub.userId, n.kind) <==> sub.userId in userPrefs && IsNotifMuted(userPrefs[sub.userId], n.kind))
      modifies this
      ensures rows == old(rows) + RowFor(p, n, sub, KEPT)
      ensures published == old(published) + RowFor(p, n, sub, {Stored})
      ensures confirmed == (RowFor(p, n, sub, {Stored}) != [])
    {
      confirmed := false;
      if sub.userType != "member" {
        return;
      }
      if sub.userId == n.actor || sub.userId in n.exclude {
        return;
      }
      if sub.userId in userPrefs && IsNotifMuted(userPrefs[sub.userId], n.kind) {
        return;
      }
      confirmed := CreateInboxItem(Row("member", sub.userId, n.kind, n.issue, n.actor), p.writes(sub.userId));
    }

    method CollectMembers(subs: seq<Subscriber>) returns (ids: seq<string>)
      ensures ids == MemberIds(subs)
    {
      ids := [];
      for i := 0 to |subs|
        invariant ids == MemberIds(subs[..i])
      {
        assert subs[..i + 1][..i] == subs[..i];
        if subs[i].userType == "member" {
          ids := ids + [subs[i].userId];
        }
      }
      assert subs[..|subs|] == subs;
    }

    /** notifySubscribers. */
    method NotifySubscribers(child: Pass, parent: ParentLookup, n: Notice)
      modifies this
      ensures rows == old(rows) + Rows(n, Fanned(child, parent, n, KEPT))
      ensures published == old(published) + Rows(n, Fanned(child, parent, n, {Stored}))
    {
      var notified := NotifyIssueSubscribers(child, n);
      if n.kind !in PARENT_BUBBLE || !parent.Parent? {
        return;
      }
      var forParent := ForParent(n, notified);
      var _ := NotifyIssueSubscribers(parent.pass, forParent);
    }

    /** notifyDirect. */
    method NotifyDirect(d: Direct, n: Notice)
      modifies this
      ensures rows == old(rows) + DirectRows(d, n, KEPT)
      ensures published == old(published) + DirectRows(d, n, {Stored})
    {
      if d.recipient == n.actor {
        return;
      }
      if d.recipientType == "member" {
        var prefs := LoadUserPrefs(d.prefs, [d.recipient]);
        if d.recipient in prefs && IsNotifMuted(prefs[d.recipient], n.kind) {
          return;
        }
      }
      var _ := CreateInboxItem(Row(d.recipientType, d.recipient, n.kind, n.issue, n.actor), d.write);
    }

    method NotifyOptional(d: Option<Direct>, n: Notice)
      modifies this
      ensures rows == old(rows) + OptionalRows(d, n, KEPT)
      ensures published == old(published) + OptionalRows(d, n, {Stored})
    {
      if d.Some? {
        NotifyDirect(d.value, n);
      }
    }

    /** The part of the issue-updated listener that an assignee change runs. */
    method AssigneeChanged(child: Pass, parent: ParentLookup, newOne: Option<Direct>, oldOne: Option<Direct>,
                           actor: string, issue: string)
      modifies this
      ensures rows == old(rows) + AssigneeRows(child, newOne, oldOne, actor, issue, KEPT)
      ensures published == old(published) + AssigneeRows(child, newOne, oldOne, actor, issue, {Stored})
    {
      NotifyOptional(newOne, Notice(actor, {}, "issue_assigned", issue));
      NotifyOptional(OldMember(oldOne), Notice(actor, {}, "unassigned", issue));
      var n := Notice(actor, Assignees(newOne, oldOne), "assignee_changed", issue);
      NotBubbling(child, parent, n, KEPT);
      NotBubbling(child, parent, n, {Stored});
      NotifySubscribers(child, parent, n);
    }
  }

  lemma NextReached(p: Pass, n: Notice, subs: seq<Subscriber>, i: nat, outcomes: set<Write>)
    requires i < |subs|
    ensures var was, row := Reached(p, n, subs[..i], outcomes), RowFor(p, n, subs[i], outcomes);
      Rows(n, Reached(p, n, subs[..i + 1], outcomes)) == Rows(n, was) + row &&
      Elements(Reached(p, n, subs[..i + 1], outcomes)) == Elements(was) + if row == [] then {} else {subs[i].userId}
  {
    assert subs[..i + 1][..i] == subs[..i];
  }

  /** The loaded preferences tell of each member whether the kind is muted. */
  lemma PrefsKnown(p: Pass, n: Notice, subs: seq<Subscriber>, i: nat)
    requires i < |subs|
    ensures var user, loaded := subs[i].userId, LoadUserPrefs(p.prefs, MemberIds(subs));
      subs[i].userType == "member" ==>
        (Muted(p, user, n.kind) <==> user in loaded && IsNotifMuted(loaded[user], n.kind))
  {
    if subs[i].userType == "member" {
      MemberKnown(subs, i);
    }
  }

  lemma {:induction false} MemberKnown(subs: seq<Subscriber>, i: nat)
    requires i < |subs| && subs[i].userType == "member"
    ensures subs[i].userId in MemberIds(subs)
  {
    if i < |subs| - 1 {
      MemberKnown(subs[..|subs| - 1], i);
    }
  }
}
