/**
 * What the inbox rows of core/cmd/server/notification_listeners.go say, row by row: whom they are for, of which kind,
 * about which issue and by whom.
 */
module NotificationRows {
  import opened Common
  import opened Notifications

  predicate Off(prefs: map<string, string>, setting: string) {
    setting in prefs && prefs[setting] == "muted"
  }

  /** The kinds each setting mutes. */
  lemma MutedKinds(prefs: map<string, string>, kind: string)
    ensures IsNotifMuted(prefs, kind) <==>
      || (Off(prefs, "assignments") && kind in {"issue_assigned", "unassigned", "assignee_changed"})
      || (Off(prefs, "status_changes") && kind == "status_changed")
      || (Off(prefs, "comments") && kind in {"new_comment", "mentioned"})
      || (Off(prefs, "updates") && kind in {"priority_changed", "start_date_changed", "due_date_changed"})
      || (Off(prefs, "agent_activity") && kind in {"task_completed", "task_failed", "agent_blocked", "agent_completed"})
  {
  }

  /** The stored preferences, where they can be read, mute this kind for this user. */
  predicate MutesKind(prefs: Option<Prefs>, user: string, kind: string) {
    prefs.Some? && user in prefs.value && IsNotifMuted(prefs.value[user], kind)
  }

  /** A member on the list, other than the actor and those left out, who has not muted the kind. */
  predicate Addressed(p: Pass, n: Notice, user: string) {
    && p.subs.Some? && Subscriber("member", user) in p.subs.value
    && user != n.actor && user !in n.exclude && !MutesKind(p.prefs, user, n.kind)
  }

  lemma RowIsFor(n: Notice, users: seq<string>, row: Row)
    ensures row in Rows(n, users) <==> row.recipient in users && row == Row("member", row.recipient, n.kind, n.issue, n.actor)
  {
    if row.recipient in users && row == Row("member", row.recipient, n.kind, n.issue, n.actor) {
      var i :| 0 <= i < |users| && users[i] == row.recipient;
      assert Rows(n, users)[i] == row;
    }
  }

  /** A row is stored exactly if it is of the event's kind, issue and actor, for a member addressed through the issue or,
      for a change of status, through its parent, and one of the passes that owes it does not have it refused. */
  lemma SubscriberRowsExactly(child: Pass, parent: ParentLookup, n: Notice, row: Row)
    requires AllKeyed(child, parent)
    ensures row in Rows(n, Fanned(child, parent, n, KEPT)) <==>
      && row == Row("member", row.recipient, n.kind, n.issue, n.actor)
      && ((Addressed(child, n, row.recipient) && child.writes(row.recipient) != Rejected) ||
          (n.kind == "status_changed" && parent.Parent? && Addressed(parent.pass, n, row.recipient) &&
           parent.pass.writes(row.recipient) != Rejected &&
           !(Addressed(child, n, row.recipient) && child.writes(row.recipient) == Stored)))
  {
    var users := Fanned(child, parent, n, KEPT);
    RowIsFor(n, users, row);
    RowsExactly(child, parent, n, row.recipient);
    assert row.recipient in users <==> Times(users, row.recipient) > 0;
  }

  lemma OptionalRow(d: Option<Direct>, n: Notice, row: Row)
    ensures row in OptionalRows(d, n, KEPT) <==>
      && d.Some? && d.value.write != Rejected && d.value.recipient != n.actor
      && !(d.value.recipientType == "member" && MutesKind(d.value.prefs, d.value.recipient, n.kind))
      && row == Row(d.value.recipientType, d.value.recipient, n.kind, n.issue, n.actor)
  {
  }

  /** What a change of assignee stores: to the new one that the issue is theirs, to the old one, if a member, that it no
      longer is, and to the issue's other subscribers that the assignee changed; none of it to the actor or the muted. */
  lemma AssigneeRowsExactly(child: Pass, newOne: Option<Direct>, oldOne: Option<Direct>, actor: string, issue: string, row: Row)
    requires Keyed(child)
    ensures row in AssigneeRows(child, newOne, oldOne, actor, issue, KEPT) <==>
      || (newOne.Some? && Told(newOne.value, actor, "issue_assigned") &&
          row == Row(newOne.value.recipientType, newOne.value.recipient, "issue_assigned", issue, actor))
      || (oldOne.Some? && oldOne.value.recipientType == "member" && Told(oldOne.value, actor, "unassigned") &&
          row == Row("member", oldOne.value.recipient, "unassigned", issue, actor))
      || (row == Row("member", row.recipient, "assignee_changed", issue, actor) &&
          (newOne.Some? ==> row.recipient != newOne.value.recipient) &&
          (oldOne.Some? ==> row.recipient != oldOne.value.recipient) &&
          Addressed(child, Notice(actor, {}, "assignee_changed", issue), row.recipient) &&
          child.writes(row.recipient) != Rejected)
  {
    var n := Notice(actor, Assignees(newOne, oldOne), "assignee_changed", issue);
    OptionalRow(newOne, Notice(actor, {}, "issue_assigned", issue), row);
    OptionalRow(OldMember(oldOne), Notice(actor, {}, "unassigned", issue), row);
    RowIsFor(n, Users(child, n, KEPT), row);
    UsersOnce(child, n, KEPT, row.recipient);
  }

  /** The insert is not refused, and neither are they the actor nor a member who mutes the kind. */
  predicate Told(d: Direct, actor: string, kind: string) {
    d.write != Rejected && d.recipient != actor && !(d.recipientType == "member" && MutesKind(d.prefs, d.recipient, kind))
  }
}
