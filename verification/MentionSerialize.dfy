/**
 * apps/mobile/lib/mention-serialize.ts: completed mentions are marked in plain text by an invisible sentinel and
 * zipped, left to right, with an ordered list of markers when the text is sent.
 */
module MentionSerialize {
  import opened Common

  const SENTINEL: char := '\U{2063}'

  datatype MentionType = Member | Agent | Squad | All | Issue
  datatype Marker = Marker(kind: MentionType, id: string, name: string)
  datatype Token = Token(start: nat, query: string)

  /** The characters of the regular expression class \s. */
  predicate Space(c: char) {
    var n := c as int;
    0x09 <= n <= 0x0d || n == 0x20 || n == 0xa0 || n == 0x1680 || 0x2000 <= n <= 0x200a
    || n == 0x2028 || n == 0x2029 || n == 0x202f || n == 0x205f || n == 0x3000 || n == 0xfeff
  }

  predicate NoSpace(s: string) {
    forall i :: 0 <= i < |s| ==> !Space(s[i])
  }

  function TypeName(k: MentionType): string {
    match k
    case Member => "member"
    case Agent => "agent"
    case Squad => "squad"
    case All => "all"
    case Issue => "issue"
  }

  /** The label drops the @ for issues. */
  function Label(m: Marker): string {
    if m.kind == Issue then m.name else "@" + m.name
  }

  function Link(m: Marker): string {
    "[" + Label(m) + "](mention://" + TypeName(m.kind) + "/" + m.id + ")"
  }

  // ---------------------------------------------------------------------------------------------
  // JavaScript's slice
  // ---------------------------------------------------------------------------------------------

  /** A negative index counts from the end; both are clamped. */
  function Clamp(n: int, length: nat): (r: nat)
    ensures r <= length
    ensures 0 <= n <= length ==> r == n
  {
    if n < 0 then if n + length < 0 then 0 else n + length
    else if n > length then length else n
  }

  function Slice(s: string, from: int, to: int): string {
    var a, b := Clamp(from, |s|), Clamp(to, |s|);
    if a <= b then s[a..b] else ""
  }

  // ---------------------------------------------------------------------------------------------
  // tokenAtCursor
  // ---------------------------------------------------------------------------------------------

  /** An @ at the start or after whitespace, followed up to the cursor by neither @ nor whitespace. */
  ghost predicate IsToken(text: string, cursor: int, t: Token) {
    && 1 <= cursor <= |text| && t.start < cursor
    && text[t.start] == '@' && t.query == text[t.start + 1..cursor]
    && (forall k :: t.start < k < cursor ==> text[k] != '@' && !Space(text[k]))
    && (t.start > 0 ==> Space(text[t.start - 1]))
  }

  /** Walking back from `i`. */
  function WalkBack(text: string, cursor: nat, i: nat): Option<Token>
    requires i < cursor <= |text|
  {
    if text[i] == '@' then
      if i > 0 && !Space(text[i - 1]) then None else Some(Token(i, text[i + 1..cursor]))
    else if Space(text[i]) || i == 0 then None
    else WalkBack(text, cursor, i - 1)
  }

  function TokenOf(text: string, cursor: int): Option<Token> {
    if cursor < 1 || cursor > |text| then None else WalkBack(text, cursor, cursor - 1)
  }

  lemma {:induction false} WalkBackFinds(text: string, cursor: nat, i: nat)
    requires i < cursor <= |text|
    requires forall k :: i < k < cursor ==> text[k] != '@' && !Space(text[k])
    ensures WalkBack(text, cursor, i).Some? ==> IsToken(text, cursor, WalkBack(text, cursor, i).value)
    ensures forall t :: IsToken(text, cursor, t) ==> WalkBack(text, cursor, i) == Some(t)
  {
    if text[i] != '@' && !Space(text[i]) && i > 0 {
      WalkBackFinds(text, cursor, i - 1);
    } else {
      forall t | IsToken(text, cursor, t) ensures WalkBack(text, cursor, i) == Some(t) {
        assert t.start >= i;
        assert t.start == i;
      }
    }
  }

  /** The token the cursor is in is found exactly when there is one, and there is at most one. */
  lemma TokenOfExactly(text: string, cursor: int)
    ensures TokenOf(text, cursor).Some? ==> IsToken(text, cursor, TokenOf(text, cursor).value)
    ensures forall t :: IsToken(text, cursor, t) ==> TokenOf(text, cursor) == Some(t)
  {
    if 1 <= cursor <= |text| {
      WalkBackFinds(text, cursor, cursor - 1);
    }
  }

  method TokenAtCursor(text: string, cursor: int) returns (token: Option<Token>)
    ensures token == TokenOf(text, cursor)
    ensures token.Some? ==> IsToken(text, cursor, token.value)
    ensures token.None? ==> forall t :: !IsToken(text, cursor, t)
  {
    TokenOfExactly(text, cursor);
    if cursor < 1 || cursor > |text| {
      return None;
    }
    var i := cursor - 1;
    while i >= 0 && text[i] != '@'
      invariant -1 <= i < cursor
      invariant TokenOf(text, cursor) == if i < 0 then None else WalkBack(text, cursor, i)
    {
      if Space(text[i]) {
        return None;
      }
      i := i - 1;
    }
    if i < 0 {
      return None;
    }
    if i > 0 && text[i - 1] == SENTINEL {
      return None;
    }
    if i > 0 && !Space(text[i - 1]) {
      return None;
    }
    token := Some(Token(i, text[i + 1..cursor]));
  }

  // ---------------------------------------------------------------------------------------------
  // insertMention
  // ---------------------------------------------------------------------------------------------

  datatype Insertion = Insertion(newText: string, caret: nat, marker: Marker)

  /** The display form of a mention, with the space typed after it. */
  function Marked(m: Marker): string {
    [SENTINEL] + "@" + m.name + " "
  }

  function InsertMention(text: string, start: int, queryLength: nat, m: Marker): Insertion {
    var before := Slice(text, 0, start);
    var after := Slice(text, start + 1 + queryLength, |text|);
    Insertion(before + Marked(m) + after, |before| + |Marked(m)|, m)
  }

  /** Inside the text only the token is rewritten, and the caret lands right behind the mention's space. */
  lemma InsertRewritesToken(text: string, start: nat, queryLength: nat, m: Marker)
    requires start + 1 + queryLength <= |text|
    ensures var r := InsertMention(text, start, queryLength, m);
      && r.newText == text[..start] + Marked(m) + text[start + 1 + queryLength..]
      && r.caret <= |r.newText|
      && r.newText[..r.caret] == text[..start] + Marked(m)
      && r.newText[r.caret..] == text[start + 1 + queryLength..]
      && r.marker == m
  {
    assert text[0..start] == text[..start];
    assert text[start + 1 + queryLength..|text|] == text[start + 1 + queryLength..];
  }

  // ---------------------------------------------------------------------------------------------
  // serializeMentions
  // ---------------------------------------------------------------------------------------------

  function Strip(s: string): string {
    if s == "" then "" else (if s[0] == SENTINEL then "" else [s[0]]) + Strip(s[1..])
  }

  lemma {:induction false} StripClean(s: string)
    ensures SENTINEL !in Strip(s)
    ensures SENTINEL !in s ==> Strip(s) == s
  {
    if s != "" {
      StripClean(s[1..]);
    }
  }

  /** The first sentinel at or after `from`, or the end of the text. */
  function NextSentinel(text: string, from: nat): (r: nat)
    requires from <= |text|
    ensures from <= r <= |text|
    ensures r < |text| ==> text[r] == SENTINEL
    decreases |text| - from
  {
    if from == |text| || text[from] == SENTINEL then from else NextSentinel(text, from + 1)
  }

  lemma {:induction false} NoSentinelBefore(text: string, from: nat)
    requires from <= |text|
    ensures SENTINEL !in text[from..NextSentinel(text, from)]
    decreases |text| - from
  {
    if from < |text| && text[from] != SENTINEL {
      var r := NextSentinel(text, from + 1);
      NoSentinelBefore(text, from + 1);
      assert text[from..r] == [text[from]] + text[from + 1..r];
    }
  }

  /** The end of the whitespace-free run at `from`. */
  function WordEnd(text: string, from: nat): (r: nat)
    requires from <= |text|
    ensures from <= r <= |text|
    ensures r < |text| ==> Space(text[r])
    decreases |text| - from
  {
    if from == |text| || Space(text[from]) then from else WordEnd(text, from + 1)
  }

  lemma {:induction false} NoSpaceBefore(text: string, from: nat)
    requires from <= |text|
    ensures NoSpace(text[from..WordEnd(text, from)])
    decreases |text| - from
  {
    if from < |text| && !Space(text[from]) {
      var r := WordEnd(text, from + 1);
      NoSpaceBefore(text, from + 1);
      assert text[from..r] == [text[from]] + text[from + 1..r];
    }
  }

  /** How the text from `from` on divides: sentinel-free gaps around the words of the marked runs. */
  datatype Parsed = Parsed(gaps: seq<string>, words: seq<string>)

  function Prepend(gap: string, p: Parsed): Parsed
    requires |p.gaps| > 0
  {
    Parsed([gap + p.gaps[0]] + p.gaps[1..], p.words)
  }

  function Parse(text: string, from: nat): (p: Parsed)
    requires from <= |text|
    ensures |p.gaps| == |p.words| + 1
    decreases |text| - from
  {
    var at := NextSentinel(text, from);
    if at == |text| then Parsed([text[from..]], [])
    else if at + 1 == |text| || text[at + 1] != '@' then Prepend(text[from..at], Parse(text, at + 1))
    else
      var end := WordEnd(text, at + 2);
      var rest := Parse(text, end);
      Parsed([text[from..at]] + rest.gaps, [text[at + 2..end]] + rest.words)
  }

  /** Gaps and fillings alternate. */
  function Weave(gaps: seq<string>, fill: seq<string>): string
    requires |gaps| == |fill| + 1
  {
    if fill == [] then gaps[0] else gaps[0] + fill[0] + Weave(gaps[1..], fill[1..])
  }

  function Names(markers: seq<Marker>): (r: seq<string>)
    ensures |r| == |markers|
  {
    seq(|markers|, i requires 0 <= i < |markers| => markers[i].name)
  }

  function Links(markers: seq<Marker>): (r: seq<string>)
    ensures |r| == |markers|
  {
    seq(|markers|, i requires 0 <= i < |markers| => Link(markers[i]))
  }

  /** All or nothing: every run is linked, in order, when the words are the markers' names; else plain text. */
  function Serialized(text: string, markers: seq<Marker>): string {
    if SENTINEL in text && Parse(text, 0).words == Names(markers)
    then Weave(Parse(text, 0).gaps, Links(markers))
    else Strip(text)
  }

  function Then(out: string, rest: Option<string>): Option<string> {
    match rest case None => None case Some(r) => Some(out + r)
  }

  /** What the loop makes of the text from `from` on with the markers left; None: it gives up. */
  function Linked(text: string, from: nat, markers: seq<Marker>): Option<string>
    requires from <= |text|
    decreases |text| - from, 1
  {
    var at := NextSentinel(text, from);
    Then(text[from..at], AfterGap(text, at, markers))
  }

  /** What follows the gap before the next sentinel. */
  function AfterGap(text: string, at: nat, markers: seq<Marker>): Option<string>
    requires at <= |text|
    decreases |text| - at, 0
  {
    if at == |text| then if markers == [] then Some("") else None
    else if at + 1 == |text| || text[at + 1] != '@' then Linked(text, at + 1, markers)
    else
      var end := WordEnd(text, at + 2);
      if markers == [] || markers[0].name != text[at + 2..end] then None
      else Then(Link(markers[0]), Linked(text, end, markers[1..]))
  }

  lemma ThenThen(a: string, b: string, rest: Option<string>)
    ensures Then(a, Then(b, rest)) == Then(a + b, rest)
  {
    if rest.Some? {
      assert a + (b + rest.value) == (a + b) + rest.value;
    }
  }

  /** A sentinel without @ behind it is dropped. */
  lemma StrayTurn(text: string, cursor: nat, at: nat, left: seq<Marker>, out: string)
    requires cursor <= |text| && at == NextSentinel(text, cursor)
    requires at < |text| && (at + 1 == |text| || text[at + 1] != '@')
    ensures Then(out, Linked(text, cursor, left)) == Then(out + text[cursor..at], Linked(text, at + 1, left))
  {
    ThenThen(out, text[cursor..at], AfterGap(text, at, left));
  }

  /** A run whose word is the next marker's name becomes that marker's link. */
  lemma LinkTurn(text: string, cursor: nat, at: nat, end: nat, left: seq<Marker>, out: string)
    requires cursor <= |text| && left != [] && at == NextSentinel(text, cursor) && at + 1 < |text|
    requires text[at + 1] == '@' && end == WordEnd(text, at + 2) && left[0].name == text[at + 2..end]
    ensures Then(out, Linked(text, cursor, left)) ==
      Then(out + text[cursor..at] + Link(left[0]), Linked(text, end, left[1..]))
  {
    RunHere(text, cursor, at, end, left);
    var rest := Linked(text, end, left[1..]);
    ThenThen(out, text[cursor..at], Then(Link(left[0]), rest));
    ThenThen(out + text[cursor..at], Link(left[0]), rest);
  }

  method SerializeMentions(text: string, markers: seq<Marker>) returns (r: string)
    ensures r == Serialized(text, markers)
  {
    StripClean(text);
    if SENTINEL !in text {
      return text;
    }
    var ok, linked := LinkAll(text, markers);
    LinkedIsWeave(text, 0, markers);
    if !ok {
      return Strip(text);
    }
    r := linked;
  }

  /** No sentinel is left: the rest is copied, and every marker must have been used. */
  lemma LastTurn(text: string, cursor: nat, left: seq<Marker>, out: string)
    requires cursor <= |text| && NextSentinel(text, cursor) == |text|
    ensures Then(out, Linked(text, cursor, left)) == if left == [] then Some(out + text[cursor..]) else None
  {
    assert text[cursor..|text|] + "" == text[cursor..];
  }

  /** A run that is not the next marker's name ends the walk. */
  lemma MismatchTurn(text: string, cursor: nat, left: seq<Marker>, out: string)
    requires cursor <= |text|
    requires var at := NextSentinel(text, cursor);
      at + 1 < |text| && text[at + 1] == '@' && (left == [] || left[0].name != text[at + 2..WordEnd(text, at + 2)])
    ensures Then(out, Linked(text, cursor, left)).None?
  {
  }

  /** The walk over the text, giving up at the first mismatch. */
  method LinkAll(text: string, markers: seq<Marker>) returns (ok: bool, out: string)
    ensures Linked(text, 0, markers) == if ok then Some(out) else None
  {
    var cursor, markerIndex := 0, 0;
    out := "";
    ghost var goal := Linked(text, 0, markers);
    ghost var left := markers;
    ThenNothing(goal);
    while cursor < |text|
      invariant cursor <= |text| && markerIndex <= |markers|
      invariant left == markers[markerIndex..] && goal == Then(out, Linked(text, cursor, left))
      decreases |text| - cursor
    {
      var sentinelAt := NextSentinel(text, cursor);
      if sentinelAt == |text| {
        break;
      }
      if sentinelAt + 1 == |text| || text[sentinelAt + 1] != '@' {
        out := DropStray(text, cursor, sentinelAt, out, left);
        cursor := sentinelAt + 1;
        continue;
      }
      LeftFacts(markers, markerIndex);
      var marker := if markerIndex < |markers| then Some(markers[markerIndex]) else None;
      var matched;
      matched, cursor, out := LinkRun(text, cursor, sentinelAt, marker, out, left);
      if !matched {
        return false, out;
      }
      left := left[1..];
      markerIndex := markerIndex + 1;
    }
    LeftFacts(markers, markerIndex);
    LastTurn(text, cursor, left, out);
    out := out + text[cursor..];
    ok := markerIndex == |markers|;
  }

  /** A stray sentinel: what stands before it is kept. */
  method DropStray(text: string, cursor: nat, at: nat, out: string, ghost left: seq<Marker>) returns (more: string)
    requires cursor <= |text| && at == NextSentinel(text, cursor)
    requires at < |text| && (at + 1 == |text| || text[at + 1] != '@')
    ensures Then(out, Linked(text, cursor, left)) == Then(more, Linked(text, at + 1, left))
  {
    StrayTurn(text, cursor, at, left, out);
    more := out + text[cursor..at];
  }

  /** One marked run: its word has to be the next marker's name. */
  method LinkRun(text: string, cursor: nat, at: nat, marker: Option<Marker>, out: string, ghost left: seq<Marker>)
    returns (matched: bool, wordEnd: nat, more: string)
    requires cursor <= |text| && at == NextSentinel(text, cursor) && at + 1 < |text| && text[at + 1] == '@'
    requires marker == if left == [] then None else Some(left[0])
    ensures matched ==> left != [] && cursor < wordEnd <= |text|
    ensures matched ==> Then(out, Linked(text, cursor, left)) == Then(more, Linked(text, wordEnd, left[1..]))
    ensures !matched ==> Then(out, Linked(text, cursor, left)).None?
  {
    wordEnd := FindWordEnd(text, at + 2);
    if marker.None? || marker.value.name != text[at + 2..wordEnd] {
      MismatchTurn(text, cursor, left, out);
      return false, wordEnd, out;
    }
    LinkTurn(text, cursor, at, wordEnd, left, out);
    matched, more := true, out + text[cursor..at] + Link(marker.value);
  }

  lemma LeftFacts(markers: seq<Marker>, k: nat)
    requires k <= |markers|
    ensures markers[k..] == [] <==> k == |markers|
    ensures k < |markers| ==> markers[k..][0] == markers[k] && markers[k..][1..] == markers[k + 1..]
  {
  }

  method FindWordEnd(text: string, from: nat) returns (wordEnd: nat)
    requires from <= |text|
    ensures wordEnd == WordEnd(text, from)
  {
    wordEnd := from;
    while wordEnd < |text| && !Space(text[wordEnd])
      invariant from <= wordEnd <= |text|
      invariant WordEnd(text, from) == WordEnd(text, wordEnd)
    {
      wordEnd := wordEnd + 1;
    }
  }

  lemma ThenNothing(rest: Option<string>)
    ensures Then("", rest) == rest
  {
    if rest.Some? {
      assert "" + rest.value == rest.value;
    }
  }

  lemma WeavePrepend(gap: string, gaps: seq<string>, fill: seq<string>)
    requires |gaps| == |fill| + 1
    ensures Weave([gap + gaps[0]] + gaps[1..], fill) == gap + Weave(gaps, fill)
  {
    var more := [gap + gaps[0]] + gaps[1..];
    assert more[1..] == gaps[1..];
    if fill != [] {
      assert (gap + gaps[0]) + fill[0] + Weave(gaps[1..], fill[1..]) == gap + (gaps[0] + fill[0] + Weave(gaps[1..], fill[1..]));
    }
  }

  /** What the walk should make of text that divides like this. */
  function Woven(p: Parsed, markers: seq<Marker>): Option<string>
    requires |p.gaps| == |p.words| + 1
  {
    if p.words == Names(markers) then Some(Weave(p.gaps, Links(markers))) else None
  }

  /** The loop gives up exactly when the words are not the markers' names, and otherwise weaves the links in. */
  lemma {:induction false} LinkedIsWeave(text: string, from: nat, markers: seq<Marker>)
    requires from <= |text|
    ensures Linked(text, from, markers) == Woven(Parse(text, from), markers)
    decreases |text| - from
  {
    var at := NextSentinel(text, from);
    if at == |text| {
      EndWeaves(text, from, markers);
    } else if at + 1 == |text| || text[at + 1] != '@' {
      LinkedIsWeave(text, at + 1, markers);
      StrayIsWeave(text, from, at, markers);
    } else {
      var end := WordEnd(text, at + 2);
      var left := if markers == [] then [] else markers[1..];
      LinkedIsWeave(text, end, left);
      RunIsWeave(text, from, at, end, markers, left);
    }
  }

  lemma StrayIsWeave(text: string, from: nat, at: nat, markers: seq<Marker>)
    requires from <= |text| && at == NextSentinel(text, from) && at < |text| && (at + 1 == |text| || text[at + 1] != '@')
    requires Linked(text, at + 1, markers) == Woven(Parse(text, at + 1), markers)
    ensures Linked(text, from, markers) == Woven(Parse(text, from), markers)
  {
    StrayHere(text, from, at, markers);
    StrayParses(text, from, at);
    StrayWeaves(text[from..at], markers, Parse(text, at + 1));
  }

  lemma StrayParses(text: string, from: nat, at: nat)
    requires from <= |text| && at == NextSentinel(text, from) && at < |text| && (at + 1 == |text| || text[at + 1] != '@')
    ensures Parse(text, from) == Prepend(text[from..at], Parse(text, at + 1))
  {
  }

  lemma RunIsWeave(text: string, from: nat, at: nat, end: nat, markers: seq<Marker>, left: seq<Marker>)
    requires from <= |text| && at == NextSentinel(text, from) && at + 1 < |text| && text[at + 1] == '@'
    requires end == WordEnd(text, at + 2)
    requires left == (if markers == [] then [] else markers[1..])
    requires Linked(text, end, left) == Woven(Parse(text, end), left)
    ensures Linked(text, from, markers) == Woven(Parse(text, from), markers)
  {
    RunHere(text, from, at, end, markers);
    RunParses(text, from, at, end);
    RunWeaves(text[from..at], text[at + 2..end], markers, Parse(text, end));
  }

  lemma EndWeaves(text: string, from: nat, markers: seq<Marker>)
    requires from <= |text| && NextSentinel(text, from) == |text|
    ensures Linked(text, from, markers) == Woven(Parse(text, from), markers)
  {
    LastTurn(text, from, markers, "");
    ThenNothing(Linked(text, from, markers));
    assert "" + text[from..] == text[from..];
    assert markers == [] <==> Names(markers) == [];
  }

  lemma StrayHere(text: string, from: nat, at: nat, markers: seq<Marker>)
    requires from <= |text| && at == NextSentinel(text, from) && at < |text| && (at + 1 == |text| || text[at + 1] != '@')
    ensures Linked(text, from, markers) == Then(text[from..at], Linked(text, at + 1, markers))
  {
  }

  lemma RunHere(text: string, from: nat, at: nat, end: nat, markers: seq<Marker>)
    requires from <= |text| && at == NextSentinel(text, from) && at + 1 < |text| && text[at + 1] == '@'
    requires end == WordEnd(text, at + 2)
    ensures Linked(text, from, markers) ==
      if markers == [] || markers[0].name != text[at + 2..end] then None
      else Then(text[from..at], Then(Link(markers[0]), Linked(text, end, markers[1..])))
  {
  }

  lemma RunParses(text: string, from: nat, at: nat, end: nat)
    requires from <= |text| && at == NextSentinel(text, from) && at + 1 < |text| && text[at + 1] == '@'
    requires end == WordEnd(text, at + 2)
    ensures Parse(text, from) ==
      Parsed([text[from..at]] + Parse(text, end).gaps, [text[at + 2..end]] + Parse(text, end).words)
  {
  }

  lemma StrayWeaves(gap: string, markers: seq<Marker>, rest: Parsed)
    requires |rest.gaps| == |rest.words| + 1
    ensures Then(gap, Woven(rest, markers)) == Woven(Prepend(gap, rest), markers)
  {
    if rest.words == Names(markers) {
      WeavePrepend(gap, rest.gaps, Links(markers));
    }
  }

  lemma RunWeaves(gap: string, word: string, markers: seq<Marker>, rest: Parsed)
    requires |rest.gaps| == |rest.words| + 1
    ensures Woven(Parsed([gap] + rest.gaps, [word] + rest.words), markers) ==
      if markers == [] || markers[0].name != word then None
      else Then(gap, Then(Link(markers[0]), Woven(rest, markers[1..])))
  {
    if markers == [] {
      assert Names(markers) == [];
    } else {
      NamesCons(markers);
      ConsInjective(word, rest.words, markers[0].name, Names(markers[1..]));
      ThenThen(gap, Link(markers[0]), Woven(rest, markers[1..]));
      if word == markers[0].name && rest.words == Names(markers[1..]) {
        var gaps, links := [gap] + rest.gaps, Links(markers);
        assert gaps[1..] == rest.gaps && links[1..] == Links(markers[1..]);
      }
    }
  }

  lemma ConsInjective(a: string, s: seq<string>, b: string, t: seq<string>)
    ensures [a] + s == [b] + t <==> a == b && s == t
  {
    assert ([a] + s)[0] == a && ([b] + t)[0] == b;
    assert ([a] + s)[1..] == s && ([b] + t)[1..] == t;
  }

  lemma NamesCons(markers: seq<Marker>)
    requires markers != []
    ensures Names(markers) == [markers[0].name] + Names(markers[1..])
    ensures Links(markers) == [Link(markers[0])] + Links(markers[1..])
  {
  }
}
