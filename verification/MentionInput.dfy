/**
 * apps/mobile/lib/use-mention-input.ts: the state of a text field with @-mentions and the handlers that change
 * it.  Each handler call is one transition on the latest state; the raw setText is not among them.
 */
module MentionInput {
  import opened Common
  import opened MentionSerialize

  datatype Selection = Selection(start: int, end: int)

  datatype Editor = Editor(text: string, selection: Selection, markers: seq<Marker>, mentioning: Option<Token>)

  datatype Snapshot = Snapshot(text: string, markers: seq<Marker>, selection: Selection)

  datatype Event =
    | ChangeText(next: string)
    | ChangeSelection(sel: Selection)
    | SetSelection(sel: Selection)        // the plain state setter, which leaves the suggestion bar alone
    | AtButton
    | SelectMention(m: Marker)
    | InsertAtCursor(insert: string, offsetFromEnd: int)
    | InsertAtLineStart(prefix: string)
    | Restore(snap: Snapshot)
    | Reset

  function EmptyEditor(): Editor {
    Editor("", Selection(0, 0), [], None)
  }

  /** An @ at the start or after whitespace, followed by exactly the query. */
  ghost predicate PointsAt(text: string, t: Token) {
    && t.start < |text| && text[t.start] == '@'
    && t.start + 1 + |t.query| <= |text|
    && text[t.start + 1..t.start + 1 + |t.query|] == t.query
    && NoSpace(t.query) && '@' !in t.query
    && (t.start > 0 ==> Space(text[t.start - 1]))
  }

  ghost predicate EditorOk(e: Editor) {
    e.mentioning.Some? ==> PointsAt(e.text, e.mentioning.value)
  }

  lemma TokenPoints(text: string, cursor: int)
    ensures TokenOf(text, cursor).Some? ==> PointsAt(text, TokenOf(text, cursor).value)
  {
    TokenOfExactly(text, cursor);
    if TokenOf(text, cursor).Some? {
      var t := TokenOf(text, cursor).value;
      assert forall k :: 0 <= k < |t.query| ==> t.query[k] == text[t.start + 1 + k];
    }
  }

  // ---------------------------------------------------------------------------------------------
  // The transitions
  // ---------------------------------------------------------------------------------------------

  function Caret(at: int): Selection {
    Selection(at, at)
  }

  /** The @ of the toolbar, padded unless whitespace or nothing stands before it. */
  function AtInsert(before: string): string {
    if before != "" && !Space(before[|before| - 1]) then " @" else "@"
  }

  /** The start of the line a text ends in. */
  function LineStart(before: string): (r: nat)
    ensures r <= |before|
    ensures '\n' !in before[r..]
    ensures r > 0 ==> before[r - 1] == '\n'
  {
    if before == "" then 0
    else if before[|before| - 1] == '\n' then |before|
    else
      var r := LineStart(before[..|before| - 1]);
      assert before[r..] == before[..|before| - 1][r..] + [before[|before| - 1]];
      r
  }

  function Handle(e: Editor, ev: Event): Editor {
    match ev
    case ChangeText(next) => e.(text := next, mentioning := TokenOf(next, e.selection.end))
    case ChangeSelection(sel) => e.(selection := sel, mentioning := TokenOf(e.text, sel.end))
    case SetSelection(sel) => e.(selection := sel)
    case AtButton =>
      var before := Slice(e.text, 0, e.selection.start);
      var cursor := |before| + |AtInsert(before)|;
      var next := before + AtInsert(before) + Slice(e.text, e.selection.end, |e.text|);
      e.(text := next, selection := Caret(cursor), mentioning := TokenOf(next, cursor))
    case SelectMention(m) =>
      if e.mentioning.None? then e
      else
        var r := InsertMention(e.text, e.mentioning.value.start, |e.mentioning.value.query|, m);
        Editor(r.newText, Caret(r.caret), e.markers + [r.marker], None)
    case InsertAtCursor(insert, offset) =>
      var before := Slice(e.text, 0, e.selection.start);
      e.(text := before + insert + Slice(e.text, e.selection.end, |e.text|),
         selection := Caret(|before| + |insert| - offset), mentioning := None)
    case InsertAtLineStart(prefix) =>
      var at := LineStart(Slice(e.text, 0, e.selection.start));
      e.(text := Slice(e.text, 0, at) + prefix + Slice(e.text, at, |e.text|),
         selection := Caret(e.selection.end + |prefix|), mentioning := None)
    case Restore(snap) => Editor(snap.text, snap.selection, snap.markers, None)
    case Reset => EmptyEditor()
  }

  function HandleAll(e: Editor, evs: seq<Event>): Editor {
    if evs == [] then e else Handle(HandleAll(e, evs[..|evs| - 1]), evs[|evs| - 1])
  }

  lemma HandleKeepsOk(e: Editor, ev: Event)
    requires EditorOk(e)
    ensures EditorOk(Handle(e, ev))
  {
    match ev
    case ChangeText(next) => TokenPoints(next, e.selection.end);
    case ChangeSelection(sel) => TokenPoints(e.text, sel.end);
    case AtButton => TokenPoints(Handle(e, ev).text, Handle(e, ev).selection.end);
    case _ =>
  }

  /** Over every run of the handlers an active mention points at an @ followed by exactly its query in the current text. */
  lemma {:induction false} ActiveMentionPointsAtItsQuery(evs: seq<Event>)
    ensures EditorOk(HandleAll(EmptyEditor(), evs))
  {
    if evs != [] {
      ActiveMentionPointsAtItsQuery(evs[..|evs| - 1]);
      HandleKeepsOk(HandleAll(EmptyEditor(), evs[..|evs| - 1]), evs[|evs| - 1]);
    }
  }

  /** What picking a suggestion for token t does to an editor. */
  ghost predicate PickedAt(e: Editor, t: Token, m: Marker, r: Editor) {
    && t.start + 1 + |t.query| <= |e.text|
    && e.text[t.start..t.start + 1 + |t.query|] == "@" + t.query
    && r.text == e.text[..t.start] + Marked(m) + e.text[t.start + 1 + |t.query|..]
    && 0 <= r.selection.start == r.selection.end <= |r.text|
    && r.text[..r.selection.end] == e.text[..t.start] + Marked(m)
    && r.markers == e.markers + [m] && r.mentioning.None?
  }

  lemma PickRewrites(e: Editor, m: Marker)
    requires EditorOk(e) && e.mentioning.Some?
    ensures PickedAt(e, e.mentioning.value, m, Handle(e, SelectMention(m)))
  {
    var t := e.mentioning.value;
    InsertRewritesToken(e.text, t.start, |t.query|, m);
    QueryRun(e.text, t);
    PickedEditor(e, InsertMention(e.text, t.start, |t.query|, m), t, m);
  }

  lemma PickedEditor(e: Editor, r: Insertion, t: Token, m: Marker)
    requires e.mentioning == Some(t) && r == InsertMention(e.text, t.start, |t.query|, m)
    ensures Handle(e, SelectMention(m)) == Editor(r.newText, Caret(r.caret), e.markers + [r.marker], None)
  {
  }

  lemma QueryRun(text: string, t: Token)
    requires PointsAt(text, t)
    ensures text[t.start..t.start + 1 + |t.query|] == "@" + t.query
  {
    var run := text[t.start..t.start + 1 + |t.query|];
    assert run == [run[0]] + text[t.start + 1..t.start + 1 + |t.query|];
  }

  /**
   * After any run, picking a suggestion rewrites only the @ and its query, puts the caret right behind the
   * mention, appends exactly one marker and closes the bar.
   */
  lemma PickingRewritesOnlyTheQuery(evs: seq<Event>, m: Marker)
    requires HandleAll(EmptyEditor(), evs).mentioning.Some?
    ensures var e := HandleAll(EmptyEditor(), evs);
      PickedAt(e, e.mentioning.value, m, Handle(e, SelectMention(m)))
  {
    ActiveMentionPointsAtItsQuery(evs);
    PickRewrites(HandleAll(EmptyEditor(), evs), m);
  }

  /** The toolbar's @ always opens the suggestion bar, with an empty query at the caret. */
  lemma AtButtonOpensBar(e: Editor)
    ensures var r := Handle(e, AtButton);
      && r.selection.start == r.selection.end
      && r.mentioning == Some(Token(r.selection.end - 1, ""))
  {
    var r := Handle(e, AtButton);
    var cursor := r.selection.end;
    var before := Slice(e.text, 0, e.selection.start);
    assert r.text[cursor - 1] == '@';
    assert cursor > 1 ==> Space(r.text[cursor - 2]);
    assert IsToken(r.text, cursor, Token(cursor - 1, ""));
    TokenOfExactly(r.text, cursor);
  }

  /** Typing and moving the caret keep everything else, and open the bar exactly for the token the caret is in. */
  lemma BarFollowsCaret(e: Editor, next: string, sel: Selection)
    ensures var r := Handle(e, ChangeText(next));
      && r.text == next && r.selection == e.selection && r.markers == e.markers
      && forall t :: r.mentioning == Some(t) <==> IsToken(next, e.selection.end, t)
    ensures var r := Handle(e, ChangeSelection(sel));
      && r.text == e.text && r.selection == sel && r.markers == e.markers
      && forall t :: r.mentioning == Some(t) <==> IsToken(e.text, sel.end, t)
  {
    TokenOfExactly(next, e.selection.end);
    TokenOfExactly(e.text, sel.end);
  }

  /** The selection lies within the text. */
  predicate Selects(e: Editor) {
    0 <= e.selection.start <= e.selection.end <= |e.text|
  }

  /** The text between these two places has been replaced, the caret is here, the bar is closed and the markers stay. */
  ghost predicate Replaced(e: Editor, from: nat, to: nat, insert: string, caret: int, r: Editor) {
    && from <= to <= |e.text| && r.text == e.text[..from] + insert + e.text[to..]
    && r.selection.start == caret && r.selection.end == caret
    && r.markers == e.markers && r.mentioning.None?
  }

  /** Inserting replaces the selection and nothing else; the caret goes behind what was inserted, or that far before. */
  lemma InsertionReplacesSelection(e: Editor, insert: string, offset: int)
    requires Selects(e)
    ensures Replaced(e, e.selection.start, e.selection.end, insert, e.selection.start + |insert| - offset,
                     Handle(e, InsertAtCursor(insert, offset)))
  {
    assert e.text[0..e.selection.start] == e.text[..e.selection.start];
    assert e.text[e.selection.end..|e.text|] == e.text[e.selection.end..];
  }

  /** A prefix goes to the start of the line the selection begins in, and the caret stays where it was in the text. */
  lemma PrefixGoesToLineStart(e: Editor, prefix: string) returns (at: nat)
    requires Selects(e)
    ensures at <= e.selection.start && '\n' !in e.text[at..e.selection.start] && (at > 0 ==> e.text[at - 1] == '\n')
    ensures var r := Handle(e, InsertAtLineStart(prefix));
      && Replaced(e, at, at, prefix, e.selection.end + |prefix|, r)
      && r.text[r.selection.end..] == e.text[e.selection.end..]
  {
    var before := e.text[..e.selection.start];
    assert e.text[0..e.selection.start] == before;
    at := LineStart(before);
    assert e.text[at..e.selection.start] == before[at..];
    assert at > 0 ==> e.text[at - 1] == before[at - 1];
    PrefixedAt(e.text, at, prefix, e.selection.end);
  }

  lemma PrefixedAt(text: string, at: nat, prefix: string, caret: nat)
    requires at <= caret <= |text|
    ensures Slice(text, 0, at) + prefix + Slice(text, at, |text|) == text[..at] + prefix + text[at..]
    ensures (text[..at] + prefix + text[at..])[caret + |prefix|..] == text[caret..]
  {
    assert text[0..at] == text[..at] && text[at..|text|] == text[at..];
    assert (text[..at] + prefix + text[at..])[caret + |prefix|..] == text[at..][caret - at..];
  }

  /** The toolbar's @ replaces the selection too, with a blank in front unless one or nothing stands there. */
  lemma AtButtonReplacesSelection(e: Editor)
    requires Selects(e)
    ensures var r, from := Handle(e, AtButton), e.selection.start;
      var insert := if from == 0 || Space(e.text[from - 1]) then "@" else " @";
      && r.text == e.text[..from] + insert + e.text[e.selection.end..]
      && r.selection.end == from + |insert| && r.markers == e.markers
  {
    assert e.text[0..e.selection.start] == e.text[..e.selection.start];
    assert e.text[e.selection.end..|e.text|] == e.text[e.selection.end..];
  }

  /** Resetting leaves nothing of any earlier state behind. */
  lemma ResetForgets(evs: seq<Event>)
    requires evs != [] && evs[|evs| - 1] == Reset
    ensures var r := HandleAll(EmptyEditor(), evs);
      r.text == "" && r.markers == [] && r.mentioning.None? && r.selection.start == 0 && r.selection.end == 0
  {
  }

  // ---------------------------------------------------------------------------------------------
  // The hook's state and handlers
  // ---------------------------------------------------------------------------------------------

  class Hook {
    var text: string
    var selection: Selection
    var markers: seq<Marker>
    var mentioning: Option<Token>

    ghost function View(): Editor
      reads this
    {
      Editor(text, selection, markers, mentioning)
    }

    ghost predicate Valid()
      reads this
    {
      EditorOk(View())
    }

    constructor ()
      ensures Valid() && View() == EmptyEditor()
    {
      text, selection, markers, mentioning := "", Selection(0, 0), [], None;
    }

    method OnChangeText(next: string)
      requires Valid()
      modifies this
      ensures Valid() && View() == Handle(old(View()), ChangeText(next))
    {
      HandleKeepsOk(View(), ChangeText(next));
      text := next;
      mentioning := TokenAtCursor(next, selection.end);
    }

    method OnSelectionChange(sel: Selection)
      requires Valid()
      modifies this
      ensures Valid() && View() == Handle(old(View()), ChangeSelection(sel))
    {
      HandleKeepsOk(View(), ChangeSelection(sel));
      selection := sel;
      mentioning := TokenAtCursor(text, sel.end);
    }

    method OnAtButtonPress()
      requires Valid()
      modifies this
      ensures Valid() && View() == Handle(old(View()), AtButton)
      ensures mentioning == Some(Token(selection.end - 1, ""))
    {
      ghost var was := View();
      HandleKeepsOk(was, AtButton);
      AtButtonOpensBar(was);
      var before := Slice(text, 0, selection.start);
      var after := Slice(text, selection.end, |text|);
      var needsPad := |before| > 0 && !Space(before[|before| - 1]);
      var inserted := if needsPad then " @" else "@";
      assert inserted == AtInsert(before);
      InsertAtButton(before, inserted, after);
      assert View() == Handle(was, AtButton);
    }

    method InsertAtButton(before: string, inserted: string, after: string)
      modifies this`text, this`selection, this`mentioning
      ensures text == before + inserted + after && selection == Caret(|before| + |inserted|)
      ensures mentioning == TokenOf(text, |before| + |inserted|)
    {
      var cursor := |before| + |inserted|;
      text := before + inserted + after;
      selection := Caret(cursor);
      mentioning := TokenAtCursor(text, cursor);
    }

    method OnSelectMention(m: Marker)
      requires Valid()
      modifies this
      ensures Valid() && View() == Handle(old(View()), SelectMention(m))
    {
      if mentioning.None? {
        return;
      }
      var r := InsertMention(text, mentioning.value.start, |mentioning.value.query|, m);
      text, selection, markers, mentioning := r.newText, Caret(r.caret), markers + [r.marker], None;
    }

    method OnInsertAtCursor(insert: string, cursorOffsetFromEnd: int)
      requires Valid()
      modifies this
      ensures Valid() && View() == Handle(old(View()), InsertAtCursor(insert, cursorOffsetFromEnd))
    {
      var before := Slice(text, 0, selection.start);
      var after := Slice(text, selection.end, |text|);
      var cursor := |before| + |insert| - cursorOffsetFromEnd;
      text, selection, mentioning := before + insert + after, Caret(cursor), None;
    }

    method OnInsertAtLineStart(prefix: string)
      requires Valid()
      modifies this
      ensures Valid() && View() == Handle(old(View()), InsertAtLineStart(prefix))
    {
      var before := Slice(text, 0, selection.start);
      var lineStart := LineStart(before);
      var cursor := selection.end + |prefix|;
      text := Slice(text, 0, lineStart) + prefix + Slice(text, lineStart, |text|);
      selection, mentioning := Caret(cursor), None;
    }

    /** Restoring it, whatever state the editor is in by then, brings back this one with its bar closed. */
    method TakeSnapshot() returns (snap: Snapshot)
      ensures snap == Snapshot(text, markers, selection)
      ensures forall later: Editor :: Handle(later, Restore(snap)) == View().(mentioning := None)
    {
      snap := Snapshot(text, markers, selection);
    }

    method OnRestore(snap: Snapshot)
      modifies this
      ensures Valid() && View() == Handle(old(View()), Restore(snap))
    {
      text, markers, selection, mentioning := snap.text, snap.markers, snap.selection, None;
    }

    method OnReset()
      modifies this
      ensures Valid() && View() == Handle(old(View()), Reset)
    {
      text, markers, selection, mentioning := "", [], Selection(0, 0), None;
    }

    method Serialize() returns (r: string)
      ensures r == Serialized(text, markers)
    {
      r := SerializeMentions(text, markers);
    }
  }
}
