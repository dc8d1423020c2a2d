/**
 * core/internal/util/mention.go reads the mentions of a message back: the regular expression MentionRe as a function,
 * and what it finds in a message that apps/mobile/lib/mention-serialize.ts sent.
 */
module MentionReader {
  import opened Common
  import opened MentionSerialize
  import opened MentionRoundTrip

  // ---------------------------------------------------------------------------------------------
  // \[@?(.+?)\]\(mention://(member|agent|squad|issue|all)/([0-9a-fA-F-]+|all)\)
  // ---------------------------------------------------------------------------------------------

  datatype Found = Found(kind: MentionType, id: string)

  /** A link's target, and how many characters it takes. */
  datatype Hit = Hit(found: Found, length: nat)

  predicate Starts(s: string, p: string) {
    |p| <= |s| && s[..|p|] == p
  }

  predicate HexDash(c: char) {
    '0' <= c <= '9' || 'a' <= c <= 'f' || 'A' <= c <= 'F' || c == '-'
  }

  function HexRun(s: string): (n: nat)
    ensures n <= |s| && forall i :: 0 <= i < n ==> HexDash(s[i])
    ensures n < |s| ==> !HexDash(s[n])
  {
    if s == "" || !HexDash(s[0]) then 0 else 1 + HexRun(s[1..])
  }

  function IdOf(kind: MentionType, s: string, before: nat): (r: Option<Hit>)
    ensures r.Some? ==> before < r.value.length <= before + |s|
  {
    IdBy(kind, s, HexRun(s), Starts(s, "all)"), before)
  }

  function IdBy(kind: MentionType, s: string, n: nat, all: bool, before: nat): (r: Option<Hit>)
    requires n <= |s| && (all ==> |s| >= 4)
    ensures r.Some? ==> before < r.value.length <= before + |s|
  {
    if 0 < n < |s| && s[n] == ')' then Some(Hit(Found(kind, s[..n]), before + n + 1))
    else if all then Some(Hit(Found(kind, "all"), before + 4))
    else None
  }

  datatype Kind = Kind(kind: MentionType, name: string)

  const KINDS: seq<Kind> :=
    [Kind(Member, "member/"), Kind(Agent, "agent/"), Kind(Squad, "squad/"), Kind(Issue, "issue/"), Kind(All, "all/")]

  /** The first of the kinds whose name the text begins with, and then an id. */
  function KindOf(kinds: seq<Kind>, s: string, before: nat): (r: Option<Hit>)
    ensures r.Some? ==> before < r.value.length <= before + |s|
  {
    if kinds == [] then None
    else if Starts(s, kinds[0].name) then IdOf(kinds[0].kind, s[|kinds[0].name|..], before + |kinds[0].name|)
    else KindOf(kinds[1..], s, before)
  }

  const ANCHOR: string := "](mention://"

  /** The text begins with the bracket that ends a label and the target behind it. */
  function Target(s: string): (r: Option<Hit>)
    ensures r.Some? ==> 0 < r.value.length <= |s|
  {
    if Starts(s, ANCHOR) then KindOf(KINDS, s[12..], 12) else None
  }

  /** The shortest stretch within the line that has a target behind it. */
  function Stretch(s: string): (n: Option<nat>)
    ensures n.Some? ==> n.value <= |s| && Target(s[n.value..]).Some?
  {
    if Target(s).Some? then Some(0)
    else if s == "" || s[0] == '\n' then None
    else
      var rest := Stretch(s[1..]);
      if rest.Some? then
        assert s[rest.value + 1..] == s[1..][rest.value..];
        Some(rest.value + 1)
      else None
  }

  /** A label of at least one character. */
  function LabelLength(s: string): (n: Option<nat>)
    ensures n.Some? ==> 0 < n.value <= |s| && Target(s[n.value..]).Some?
  {
    if s == "" || s[0] == '\n' then None
    else
      var rest := Stretch(s[1..]);
      if rest.Some? then
        assert s[rest.value + 1..] == s[1..][rest.value..];
        Some(rest.value + 1)
      else None
  }

  /** Where the label of a link at the start of the text ends.  An @ is taken for the optional one if that works out. */
  function Match(s: string): (n: Option<nat>)
    ensures n.Some? ==> 1 < n.value <= |s| && Target(s[n.value..]).Some?
  {
    if !Starts(s, "[") then None
    else
      var marked := if Starts(s, "[@") then LabelLength(s[2..]) else None;
      var plain := LabelLength(s[1..]);
      if marked.Some? then
        assert s[marked.value + 2..] == s[2..][marked.value..];
        Some(marked.value + 2)
      else if plain.Some? then
        assert s[plain.value + 1..] == s[1..][plain.value..];
        Some(plain.value + 1)
      else None
  }

  /** A link at the start of a text: where its label ends, and the target behind it. */
  datatype Place = Place(at: nat, hit: Hit)

  type Finder = string -> Option<Place>

  function Find(s: string): Option<Place> {
    var at := Match(s);
    if at.None? then None else Some(Place(at.value, Target(s[at.value..]).value))
  }

  ghost predicate InRange(find: Finder) {
    forall s: string :: find(s).Some? ==> 0 < find(s).value.at && find(s).value.at + find(s).value.hit.length <= |s|
  }

  lemma FindInRange()
    ensures InRange(Find)
  {
  }

  /** Left to right and without overlaps. */
  function FindAll(find: Finder, s: string): seq<Found>
    requires InRange(find)
    decreases |s|
  {
    if s == "" then []
    else if find(s).None? then FindAll(find, s[1..])
    else [find(s).value.hit.found] + FindAll(find, s[find(s).value.at + find(s).value.hit.length..])
  }

  function ReplaceAll(find: Finder, s: string): string
    requires InRange(find)
    decreases |s|
  {
    if s == "" then ""
    else if find(s).None? then [s[0]] + ReplaceAll(find, s[1..])
    else s[1..find(s).value.at] + ReplaceAll(find, s[find(s).value.at + find(s).value.hit.length..])
  }

  /** MentionRe.FindAllStringSubmatch: the kind and id of every link. */
  function Mentions(s: string): seq<Found> {
    FindInRange();
    FindAll(Find, s)
  }

  /** The same text with each link replaced by its label. */
  function Unlinked(s: string): string {
    FindInRange();
    ReplaceAll(Find, s)
  }

  // ---------------------------------------------------------------------------------------------
  // Targets stay where they are
  // ---------------------------------------------------------------------------------------------

  /** What follows begins with a bracket, if there is anything. */
  predicate Bracketed(b: string) {
    b == "" || b[0] == '[' || b[0] == ']'
  }

  lemma StartsMore(a: string, b: string, p: string)
    requires Starts(a, p)
    ensures Starts(a + b, p) && (a + b)[|p|..] == a[|p|..] + b
  {
    assert (a + b)[..|p|] == a[..|p|];
  }

  lemma StartsLocal(a: string, b: string, p: string)
    requires Bracketed(b) && (a != "" || p == "" || (p[0] != '[' && p[0] != ']'))
    requires forall i :: 0 < i < |p| ==> p[i] != '[' && p[i] != ']'
    ensures Starts(a + b, p) == Starts(a, p)
  {
    if |a| < |p| <= |a + b| {
      assert (a + b)[..|p|][|a|] == b[0] && p[|a|] != b[0];
    }
    if Starts(a + b, p) {
      assert a[..|p|] == (a + b)[..|p|];
    }
    if Starts(a, p) {
      assert a[..|p|] == (a + b)[..|p|];
    }
  }

  lemma {:induction false} HexRunLocal(a: string, b: string)
    requires Bracketed(b)
    ensures HexRun(a + b) == HexRun(a)
  {
    if a == "" {
      assert a + b == b;
    } else {
      HexRunLocal(a[1..], b);
      assert (a + b)[1..] == a[1..] + b;
    }
  }

  lemma IdLocal(kind: MentionType, a: string, b: string, before: nat)
    requires Bracketed(b)
    ensures IdOf(kind, a + b, before) == IdOf(kind, a, before)
  {
    HexRunLocal(a, b);
    StartsLocal(a, b, "all)");
    IdCut(kind, a, a + b, before, HexRun(a), Starts(a, "all)"));
  }

  lemma IdCut(kind: MentionType, a: string, s: string, before: nat, n: nat, all: bool)
    requires |a| <= |s| && s[..|a|] == a && (|a| < |s| ==> s[|a|] == '[' || s[|a|] == ']')
    requires n <= |a| && (all ==> |a| >= 4)
    ensures IdBy(kind, s, n, all, before) == IdBy(kind, a, n, all, before)
  {
    assert a[..n] == s[..n];
    if n < |a| {
      assert s[n] == s[..|a|][n];
    }
  }

  predicate Plain(name: string) {
    |name| > 1 && '[' !in name && ']' !in name
  }

  /** Names that no text can begin with two of. */
  ghost predicate Told(kinds: seq<Kind>) {
    && (forall i :: 0 <= i < |kinds| ==> Plain(kinds[i].name))
    && forall i, j :: 0 <= i < j < |kinds| ==>
         kinds[i].name[0] != kinds[j].name[0] || kinds[i].name[1] != kinds[j].name[1]
  }

  lemma KindsTold()
    ensures Told(KINDS)
  {
    assert Plain("member/") && Plain("agent/") && Plain("squad/") && Plain("issue/") && Plain("all/");
    assert "member/"[0] == 'm' && "squad/"[0] == 's' && "issue/"[0] == 'i' && "all/"[0] == 'a' && "all/"[1] == 'l';
    assert "agent/"[0] == 'a' && "agent/"[1] == 'g';
  }

  lemma {:induction false} KindLocal(kinds: seq<Kind>, a: string, b: string, before: nat)
    requires Bracketed(b) && Told(kinds)
    ensures KindOf(kinds, a + b, before) == KindOf(kinds, a, before)
  {
    if kinds != [] {
      StartsLocal(a, b, kinds[0].name);
      if Starts(a, kinds[0].name) {
        StartsMore(a, b, kinds[0].name);
        IdLocal(kinds[0].kind, a[|kinds[0].name|..], b, before + |kinds[0].name|);
      } else {
        KindLocal(kinds[1..], a, b, before);
      }
    }
  }

  /** A target does not reach across a bracket. */
  lemma TargetLocal(a: string, b: string)
    requires a != "" && Bracketed(b)
    ensures Target(a + b) == Target(a)
  {
    StartsLocal(a, b, ANCHOR);
    if Starts(a, ANCHOR) {
      KindsTold();
      StartsMore(a, b, ANCHOR);
      KindLocal(KINDS, a[12..], b, 12);
    }
  }

  predicate NoneAt(s: string, i: nat)
    requires i <= |s|
  {
    Target(s[i..]).None?
  }

  /** No target anywhere. */
  ghost predicate Untargeted(s: string) {
    forall i :: 0 <= i < |s| ==> NoneAt(s, i)
  }

  lemma {:induction false} HexRunMore(a: string, b: string)
    requires HexRun(a) < |a|
    ensures HexRun(a + b) == HexRun(a)
  {
    assert (a + b)[0] == a[0] && (a + b)[1..] == a[1..] + b;
    if HexDash(a[0]) {
      HexRunMore(a[1..], b);
    }
  }

  lemma IdMore(kind: MentionType, a: string, b: string, before: nat)
    requires IdOf(kind, a, before).Some?
    ensures IdOf(kind, a + b, before).Some?
  {
    var n := HexRun(a);
    if n < |a| {
      HexRunMore(a, b);
      assert (a + b)[n] == a[n];
    }
    if Starts(a, "all)") {
      assert (a + b)[..4] == a[..4];
      assert a[..4][3] == ')';
    }
  }

  lemma TwoCharacters(s: string, p: string, q: string)
    requires Starts(s, p) && Starts(s, q) && |p| > 1 && |q| > 1
    ensures p[0] == q[0] && p[1] == q[1]
  {
    assert s[..|p|][0] == s[..|q|][0] && s[..|p|][1] == s[..|q|][1];
  }

  lemma {:induction false} KindMore(kinds: seq<Kind>, a: string, b: string, before: nat)
    requires Told(kinds) && KindOf(kinds, a, before).Some?
    ensures KindOf(kinds, a + b, before).Some?
  {
    if Starts(a, kinds[0].name) {
      StartsMore(a, b, kinds[0].name);
      IdMore(kinds[0].kind, a[|kinds[0].name|..], b, before + |kinds[0].name|);
    } else {
      KindMore(kinds[1..], a, b, before);
      if Starts(a + b, kinds[0].name) {
        var i := KindFound(kinds[1..], a, before);
        StartsMore(a, b, kinds[i + 1].name);
        TwoCharacters(a + b, kinds[0].name, kinds[i + 1].name);
        assert false;
      }
    }
  }

  lemma {:induction false} KindFound(kinds: seq<Kind>, s: string, before: nat) returns (i: nat)
    requires KindOf(kinds, s, before).Some?
    ensures i < |kinds| && Starts(s, kinds[i].name)
  {
    if Starts(s, kinds[0].name) {
      i := 0;
    } else {
      i := KindFound(kinds[1..], s, before);
      i := i + 1;
    }
  }

  lemma TargetMore(a: string, b: string)
    requires Target(a).Some?
    ensures Target(a + b).Some?
  {
    StartsMore(a, b, ANCHOR);
    KindsTold();
    KindMore(KINDS, a[12..], b, 12);
  }

  lemma UntargetedParts(a: string, b: string)
    requires Untargeted(a + b)
    ensures Untargeted(a) && Untargeted(b)
  {
    forall i | 0 <= i < |a| ensures NoneAt(a, i) {
      assert NoneAt(a + b, i);
      assert (a + b)[i..] == a[i..] + b;
      if Target(a[i..]).Some? {
        TargetMore(a[i..], b);
      }
    }
    forall i | 0 <= i < |b| ensures NoneAt(b, i) {
      assert NoneAt(a + b, |a| + i);
      assert (a + b)[|a| + i..] == b[i..];
    }
  }

  // ---------------------------------------------------------------------------------------------
  // A link read back
  // ---------------------------------------------------------------------------------------------

  predicate GoodId(id: string) {
    id == "all" || (id != "" && forall i :: 0 <= i < |id| ==> HexDash(id[i]))
  }

  lemma {:induction false} HexRunOf(id: string, rest: string)
    requires (forall i :: 0 <= i < |id| ==> HexDash(id[i])) && (rest != "" ==> !HexDash(rest[0]))
    ensures HexRun(id + rest) == |id|
  {
    if id == "" {
      assert id + rest == rest;
    } else {
      HexRunOf(id[1..], rest);
      assert (id + rest)[1..] == id[1..] + rest;
    }
  }

  lemma OwnId(kind: MentionType, id: string, rest: string, before: nat)
    requires GoodId(id)
    ensures IdOf(kind, id + (")" + rest), before) == Some(Hit(Found(kind, id), before + |id| + 1))
  {
    var s := id + (")" + rest);
    assert s[|id|] == ')' && s[..|id|] == id;
    if id == "all" {
      HexRunOf("a", "ll)" + rest);
      assert s == "a" + ("ll)" + rest);
      assert s[..4] == "all)";
    } else {
      HexRunOf(id, ")" + rest);
    }
  }

  lemma {:induction false} OwnKind(kinds: seq<Kind>, i: nat, tail: string, before: nat)
    requires Told(kinds) && i < |kinds|
    ensures KindOf(kinds, kinds[i].name + tail, before) == IdOf(kinds[i].kind, tail, before + |kinds[i].name|)
  {
    var s := kinds[i].name + tail;
    assert s[..|kinds[i].name|] == kinds[i].name && s[|kinds[i].name|..] == tail;
    if i > 0 {
      if Starts(s, kinds[0].name) {
        TwoCharacters(s, kinds[0].name, kinds[i].name);
        assert false;
      }
      OwnKind(kinds[1..], i - 1, tail, before);
    }
  }

  lemma KindAt(m: Marker) returns (i: nat)
    ensures i < |KINDS| && KINDS[i] == Kind(m.kind, TypeName(m.kind) + "/")
  {
    i := match m.kind case Member => 0 case Agent => 1 case Squad => 2 case Issue => 3 case All => 4;
  }

  /** A link behind its label. */
  function Behind(m: Marker): string {
    ANCHOR + (TypeName(m.kind) + "/" + (m.id + ")"))
  }

  lemma OwnTarget(m: Marker, rest: string)
    requires GoodId(m.id)
    ensures Target(Behind(m) + rest) == Some(Hit(Found(m.kind, m.id), |Behind(m)|))
  {
    KindsTold();
    var i := KindAt(m);
    var s := KINDS[i].name + (m.id + (")" + rest));
    BehindParts(m, rest, KINDS[i].name);
    Anchored(s);
    OwnIn(KINDS, i, s, m.id, rest, 12);
  }

  lemma OwnIn(kinds: seq<Kind>, i: nat, s: string, id: string, rest: string, before: nat)
    requires Told(kinds) && i < |kinds| && GoodId(id) && s == kinds[i].name + (id + (")" + rest))
    ensures KindOf(kinds, s, before) == Some(Hit(Found(kinds[i].kind, id), before + |kinds[i].name| + |id| + 1))
  {
    OwnKind(kinds, i, id + (")" + rest), before);
    OwnId(kinds[i].kind, id, rest, before + |kinds[i].name|);
  }

  lemma BehindParts(m: Marker, rest: string, name: string)
    requires name == TypeName(m.kind) + "/"
    ensures Behind(m) + rest == ANCHOR + (name + (m.id + (")" + rest)))
    ensures |Behind(m)| == 12 + |name| + |m.id| + 1
  {
  }

  lemma Anchored(s: string)
    ensures Target(ANCHOR + s) == KindOf(KINDS, s, 12)
  {
    assert |ANCHOR| == 12;
    assert (ANCHOR + s)[..12] == ANCHOR && (ANCHOR + s)[12..] == s;
  }

  /** What a reader sees of a mention. */
  function LabelText(m: Marker): string {
    if m.kind == Issue then m.name else "@" + m.name
  }

  /** A marker whose link can be read back: an id the expression allows, and a label that is more than an @. */
  predicate Readable(m: Marker) {
    GoodId(m.id) && m.name != "" && SENTINEL !in m.name && (m.kind == Issue ==> m.name != "@")
  }

  /** The name keeps to one line and holds no target itself. */
  ghost predicate Quiet(name: string) {
    '\n' !in name && Untargeted(name)
  }

  lemma LinkParts(m: Marker, rest: string)
    ensures Link(m) + rest == "[" + (LabelText(m) + (Behind(m) + rest))
  {
    LinkIs(m);
    Assoc("[", LabelText(m), Behind(m));
    Assoc("[", LabelText(m) + Behind(m), rest);
    Assoc(LabelText(m), Behind(m), rest);
  }

  lemma LinkIs(m: Marker)
    ensures Link(m) == "[" + LabelText(m) + Behind(m)
  {
    var head, name := "[" + LabelText(m), TypeName(m.kind) + "/";
    Assoc(head + ANCHOR, TypeName(m.kind), "/");
    Assoc(head + ANCHOR + name, m.id, ")");
    Assoc(head + ANCHOR, name, m.id + ")");
    Assoc(head, ANCHOR, name + (m.id + ")"));
  }

  /** The first target is the link's own. */
  ghost predicate FirstTarget(s: string, p: nat, hit: Hit) {
    p <= |s| && Target(s[p..]) == Some(hit) && forall i :: 0 <= i < p ==> NoneAt(s, i)
  }

  lemma TargetAhead(a: string, b: string, hit: Hit)
    requires Untargeted(a) && Target(b) == Some(hit)
    ensures FirstTarget(a + b, |a|, hit)
  {
    assert (a + b)[|a|..] == b;
    assert b[..1] == ANCHOR[..1] by { assert b[..12][..1] == b[..1]; }
    assert b[0] == b[..1][0];
    forall i | 0 <= i < |a| ensures NoneAt(a + b, i) {
      assert NoneAt(a, i);
      assert (a + b)[i..] == a[i..] + b;
      TargetLocal(a[i..], b);
    }
  }

  lemma AheadOf(a: string, s: string, p: nat, hit: Hit)
    requires Untargeted(a) && FirstTarget(s, p, hit) && (s == "" || s[0] == '[')
    ensures FirstTarget(a + s, |a| + p, hit)
  {
    assert (a + s)[|a| + p..] == s[p..];
    forall i | 0 <= i < |a| + p ensures NoneAt(a + s, i) {
      if i < |a| {
        assert NoneAt(a, i);
        assert (a + s)[i..] == a[i..] + s;
        TargetLocal(a[i..], s);
      } else {
        assert NoneAt(s, i - |a|);
        assert (a + s)[i..] == s[i - |a|..];
      }
    }
  }

  lemma TailOf(s: string, k: nat, p: nat, hit: Hit)
    requires FirstTarget(s, p, hit) && k <= p
    ensures FirstTarget(s[k..], p - k, hit)
  {
    assert s[k..][p - k..] == s[p..];
    forall i | 0 <= i < p - k ensures NoneAt(s[k..], i) {
      assert NoneAt(s, k + i);
      assert s[k..][i..] == s[k + i..];
    }
  }

  /** A stretch that ends at all ends at the first target. */
  lemma {:induction false} StretchEnds(s: string, p: nat, hit: Hit)
    requires FirstTarget(s, p, hit)
    ensures Stretch(s).Some? ==> Stretch(s).value == p
    decreases p
  {
    assert s[0..] == s;
    if p > 0 {
      assert NoneAt(s, 0);
      TailOf(s, 1, p, hit);
      StretchEnds(s[1..], p - 1, hit);
    }
  }

  lemma {:induction false} StretchReaches(s: string, p: nat, hit: Hit)
    requires FirstTarget(s, p, hit) && '\n' !in s[..p]
    ensures Stretch(s) == Some(p)
    decreases p
  {
    if p == 0 {
      assert s[0..] == s;
    } else {
      assert s[0..] == s && NoneAt(s, 0);
      assert s[0] == s[..p][0] && s[..p][1..] == s[1..][..p - 1];
      TailOf(s, 1, p, hit);
      StretchReaches(s[1..], p - 1, hit);
    }
  }

  lemma MatchEnds(s: string, p: nat, hit: Hit)
    requires FirstTarget(s, p, hit) && p >= 3
    ensures Match(s).Some? ==> Match(s).value == p
  {
    TailOf(s, 2, p, hit);
    TailOf(s, 3, p, hit);
    StretchEnds(s[2..], p - 2, hit);
    StretchEnds(s[3..], p - 3, hit);
    assert s[1..][1..] == s[2..] && s[2..][1..] == s[3..];
  }

  lemma LabelReaches(s: string, p: nat, hit: Hit)
    requires FirstTarget(s, p, hit) && p > 0 && '\n' !in s[..p]
    ensures LabelLength(s) == Some(p)
  {
    assert s[0] == s[..p][0] && s[..p][1..] == s[1..][..p - 1];
    TailOf(s, 1, p, hit);
    StretchReaches(s[1..], p - 1, hit);
  }

  /** A link is matched from its own bracket up to the end of its own label. */
  lemma OwnMatch(m: Marker, rest: string)
    requires Readable(m) && Quiet(m.name)
    ensures FirstTarget(Link(m) + rest, 1 + |LabelText(m)|, Hit(Found(m.kind, m.id), |Behind(m)|))
    ensures Match(Link(m) + rest) == Some(1 + |LabelText(m)|)
  {
    var shown, s, hit := LabelText(m), Link(m) + rest, Hit(Found(m.kind, m.id), |Behind(m)|);
    var p := 1 + |shown|;
    LinkParts(m, rest);
    OwnTarget(m, rest);
    QuietLabel(m);
    TargetAhead("[" + shown, Behind(m) + rest, hit);
    Assoc("[", shown, Behind(m) + rest);
    Parts("[", shown, Behind(m), rest);
    MatchReaches(s, shown, hit);
  }

  lemma MatchReaches(s: string, shown: string, hit: Hit)
    requires FirstTarget(s, 1 + |shown|, hit) && s[0] == '[' && s[1..1 + |shown|] == shown
    requires shown != "" && '\n' !in shown && (shown[0] == '@' ==> |shown| > 1)
    ensures Match(s) == Some(1 + |shown|)
  {
    var p := 1 + |shown|;
    TailOf(s, 1, p, hit);
    assert s[1..][..|shown|] == shown;
    LabelReaches(s[1..], |shown|, hit);
    if shown[0] == '@' {
      TailOf(s, 2, p, hit);
      assert s[2..][..|shown| - 1] == shown[1..];
      LabelReaches(s[2..], |shown| - 1, hit);
    }
    MatchBy(s, p, shown[0] == '@');
  }

  lemma MatchBy(s: string, p: nat, marked: bool)
    requires 1 < p && |s| > 1 && s[0] == '[' && (s[1] == '@' <==> marked)
    requires LabelLength(s[1..]) == Some(p - 1) && (marked ==> LabelLength(s[2..]) == Some(p - 2))
    ensures Match(s) == Some(p)
  {
    assert s[..1] == "[";
    assert s[..2] == ['[', s[1]];
  }

  lemma QuietLabel(m: Marker)
    requires Quiet(m.name)
    ensures '\n' !in LabelText(m) && Untargeted("[" + LabelText(m))
  {
    var s := "[" + LabelText(m);
    var k := |s| - |m.name|;
    forall i | 0 <= i < |s| ensures NoneAt(s, i) {
      if i < k {
        assert s[i..][0] == s[i];
        assert s[i] == '[' || s[i] == '@';
        NoAnchor(s[i..]);
      } else {
        assert NoneAt(m.name, i - k);
        assert s[i..] == m.name[i - k..];
      }
    }
  }

  lemma NoAnchor(s: string)
    requires s != "" && s[0] != ']'
    ensures Target(s).None?
  {
    assert ANCHOR[0] == ']';
    if |s| >= |ANCHOR| {
      assert s[..|ANCHOR|][0] == s[0];
    }
  }

  // ---------------------------------------------------------------------------------------------
  // A message read back
  // ---------------------------------------------------------------------------------------------

  /** The text begins with a link: a label of this length between the bracket and this target, and then the rest. */
  ghost predicate LinkAhead(s: string, p: nat, hit: Hit, rest: string) {
    && p > 1 && FirstTarget(s, p, hit) && s[0] == '[' && p + hit.length <= |s| && s[p + hit.length..] == rest
    && Find(s) == Some(Place(p, hit))
  }

  lemma OwnLinkAhead(m: Marker, rest: string)
    requires Readable(m) && Quiet(m.name)
    ensures LinkAhead(Link(m) + rest, 1 + |LabelText(m)|, Hit(Found(m.kind, m.id), |Behind(m)|), rest)
    ensures (Link(m) + rest)[1..1 + |LabelText(m)|] == LabelText(m)
  {
    LinkParts(m, rest);
    OwnMatch(m, rest);
    Parts("[", LabelText(m), Behind(m), rest);
  }

  lemma Parts(a: string, b: string, c: string, d: string)
    requires |a| == 1
    ensures var s := a + (b + (c + d));
      && s[0] == a[0] && s[1..1 + |b|] == b && 1 + |b| + |c| <= |s| && s[1 + |b| + |c|..] == d
  {
  }

  /** From this far in front of a link, the search finds that link or nothing. */
  ghost predicate FindsAt(find: Finder, gap: string, i: nat, s: string, place: Place)
    requires i <= |gap|
  {
    find(gap[i..] + s) in {None, Some(Place(|gap| - i + place.at, place.hit))}
  }

  /** However far in front of it the search starts, this link is what it finds, if anything. */
  ghost predicate Next(find: Finder, gap: string, s: string, place: Place) {
    && place.at > 0 && place.at + place.hit.length <= |s| && find(s) == Some(place)
    && forall i :: 0 <= i < |gap| ==> FindsAt(find, gap, i, s, place)
  }

  lemma NextTail(find: Finder, gap: string, s: string, place: Place)
    requires gap != "" && Next(find, gap, s, place)
    ensures Next(find, gap[1..], s, place)
  {
    forall i | 0 <= i < |gap| - 1 ensures FindsAt(find, gap[1..], i, s, place) {
      assert FindsAt(find, gap, i + 1, s, place);
      assert gap[1..][i..] == gap[i + 1..];
    }
  }

  lemma NextIs(gap: string, s: string, p: nat, hit: Hit, rest: string)
    requires Untargeted(gap) && LinkAhead(s, p, hit, rest)
    ensures Next(Find, gap, s, Place(p, hit))
  {
    forall i | 0 <= i < |gap| ensures FindsAt(Find, gap, i, s, Place(p, hit)) {
      FoundInGap(gap, i, s, p, hit);
    }
  }

  lemma FoundInGap(gap: string, i: nat, s: string, p: nat, hit: Hit)
    requires i < |gap| && Untargeted(gap) && FirstTarget(s, p, hit) && p > 1 && s[0] == '['
    ensures FindsAt(Find, gap, i, s, Place(p, hit))
  {
    UntargetedTail(gap, i);
    AheadOf(gap[i..], s, p, hit);
    MatchEnds(gap[i..] + s, |gap| - i + p, hit);
  }

  lemma SkipOne(find: Finder, c: char, s: string)
    requires InRange(find) && find([c] + s).None?
    ensures FindAll(find, [c] + s) == FindAll(find, s) && ReplaceAll(find, [c] + s) == [c] + ReplaceAll(find, s)
  {
    assert ([c] + s)[1..] == s;
  }

  lemma TakeOne(find: Finder, before: string, s: string, place: Place)
    requires InRange(find) && place.at + place.hit.length <= |s|
    requires find(before + s) == Some(Place(|before| + place.at, place.hit))
    ensures FindAll(find, before + s) == [place.hit.found] + FindAll(find, s[place.at + place.hit.length..])
  {
    var t := before + s;
    assert t[|before| + place.at + place.hit.length..] == s[place.at + place.hit.length..];
  }

  /** A link is found, whatever stands before it. */
  lemma {:induction false} ReadAfter(find: Finder, gap: string, s: string, place: Place)
    requires InRange(find) && Next(find, gap, s, place)
    ensures FindAll(find, gap + s) == [place.hit.found] + FindAll(find, s[place.at + place.hit.length..])
    decreases |gap|
  {
    if gap == "" {
      assert gap + s == s;
      TakeOne(find, gap, s, place);
    } else {
      assert gap[0..] == gap && FindsAt(find, gap, 0, s, place);
      if find(gap + s).Some? {
        TakeOne(find, gap, s, place);
      } else {
        NextTail(find, gap, s, place);
        ReadAfter(find, gap[1..], s, place);
        assert [gap[0]] + (gap[1..] + s) == gap + s;
        SkipOne(find, gap[0], gap[1..] + s);
      }
    }
  }

  lemma UntargetedTail(s: string, k: nat)
    requires k <= |s| && Untargeted(s)
    ensures Untargeted(s[k..])
  {
    assert s == s[..k] + s[k..];
    UntargetedParts(s[..k], s[k..]);
  }

  ghost predicate MissesAt(find: Finder, s: string, i: nat)
    requires i <= |s|
  {
    find(s[i..]).None?
  }

  /** No link begins among the first k characters. */
  ghost predicate Misses(find: Finder, s: string, k: nat)
    requires k <= |s|
  {
    forall i :: 0 <= i < k ==> MissesAt(find, s, i)
  }

  lemma MissesOn(find: Finder, s: string, k: nat)
    requires 0 < k <= |s| && Misses(find, s, k)
    ensures find(s).None? && Misses(find, s[1..], k - 1)
  {
    assert s[0..] == s && MissesAt(find, s, 0);
    forall i | 0 <= i < k - 1 ensures MissesAt(find, s[1..], i) {
      assert s[1..][i..] == s[i + 1..] && MissesAt(find, s, i + 1);
    }
  }

  /** Text in which no link begins is left alone. */
  lemma {:induction false} LeftAlone(find: Finder, s: string, k: nat)
    requires InRange(find) && k <= |s| && Misses(find, s, k)
    ensures FindAll(find, s) == FindAll(find, s[k..])
    ensures ReplaceAll(find, s) == s[..k] + ReplaceAll(find, s[k..])
    decreases k
  {
    if k == 0 {
      assert s[0..] == s;
    } else {
      MissesOn(find, s, k);
      LeftAlone(find, s[1..], k - 1);
      assert s[1..][k - 1..] == s[k..] && s[1..][..k - 1] == s[1..k];
      LeaveOne(find, s, k, ReplaceAll(find, s[k..]));
    }
  }

  lemma LeaveOne(find: Finder, s: string, k: nat, rest: string)
    requires InRange(find) && 0 < k <= |s| && find(s).None? && ReplaceAll(find, s[1..]) == s[1..k] + rest
    ensures FindAll(find, s) == FindAll(find, s[1..]) && ReplaceAll(find, s) == s[..k] + rest
  {
    assert s[..k] == [s[0]] + s[1..k];
    Assoc([s[0]], s[1..k], rest);
  }

  lemma ReadNone(gap: string)
    requires Untargeted(gap)
    ensures Mentions(gap) == []
  {
    FindInRange();
    forall i | 0 <= i < |gap| ensures MissesAt(Find, gap, i) {
      NoneFound(gap, i);
    }
    LeftAlone(Find, gap, |gap|);
  }

  lemma NoneFound(gap: string, i: nat)
    requires i < |gap| && Untargeted(gap)
    ensures MissesAt(Find, gap, i)
  {
    UntargetedTail(gap, i);
    var n := Match(gap[i..]);
    NoneBehind(gap[i..], if n.Some? then n.value else 0);
  }

  lemma NoneBehind(s: string, n: nat)
    requires Untargeted(s) && n <= |s|
    ensures Target(s[n..]).None?
  {
    if n < |s| {
      assert NoneAt(s, n);
    }
  }

  /** Links are only looked for at a bracket. */
  lemma FindsAtBracket(s: string)
    requires s != "" && s[0] != '['
    ensures Find(s).None?
  {
    assert s[..1][0] == s[0];
  }

  /** A link is replaced by its label. */
  lemma UnlinkOne(find: Finder, s: string, place: Place, rest: string)
    requires InRange(find) && s != "" && find(s) == Some(place)
    requires place.at + place.hit.length <= |s| && rest == s[place.at + place.hit.length..]
    ensures ReplaceAll(find, s) == s[1..place.at] + ReplaceAll(find, rest)
  {
  }

  lemma UnlinkNone(gap: string)
    requires '[' !in gap
    ensures Unlinked(gap) == gap
  {
    FindInRange();
    forall i | 0 <= i < |gap| ensures MissesAt(Find, gap, i) {
      FindsAtBracket(gap[i..]);
    }
    LeftAlone(Find, gap, |gap|);
    assert gap[..|gap|] + "" == gap;
  }

  function FoundOf(markers: seq<Marker>): (r: seq<Found>)
    ensures |r| == |markers|
  {
    seq(|markers|, i requires 0 <= i < |markers| => Found(markers[i].kind, markers[i].id))
  }

  function LabelTexts(markers: seq<Marker>): (r: seq<string>)
    ensures |r| == |markers|
  {
    seq(|markers|, i requires 0 <= i < |markers| => LabelText(markers[i]))
  }

  ghost predicate AllUntargeted(gaps: seq<string>) {
    forall i :: 0 <= i < |gaps| ==> Untargeted(gaps[i])
  }

  ghost predicate AllReadable(markers: seq<Marker>) {
    forall i :: 0 <= i < |markers| ==> Readable(markers[i])
  }

  ghost predicate AllQuiet(names: seq<string>) {
    forall i :: 0 <= i < |names| ==> Quiet(names[i])
  }

  lemma WeaveNext(gaps: seq<string>, fill: seq<string>)
    requires |gaps| == |fill| + 1 && fill != []
    ensures Weave(gaps, fill) == gaps[0] + (fill[0] + Weave(gaps[1..], fill[1..]))
  {
    Assoc(gaps[0], fill[0], Weave(gaps[1..], fill[1..]));
  }

  lemma Rest(markers: seq<Marker>)
    requires markers != [] && AllReadable(markers) && AllQuiet(Names(markers))
    ensures Readable(markers[0]) && Quiet(markers[0].name)
    ensures AllReadable(markers[1..]) && AllQuiet(Names(markers[1..]))
  {
    assert Names(markers)[0] == markers[0].name;
    assert Names(markers)[1..] == Names(markers[1..]);
  }

  lemma RestLists(markers: seq<Marker>)
    requires markers != []
    ensures Links(markers)[0] == Link(markers[0]) && Links(markers)[1..] == Links(markers[1..])
    ensures LabelTexts(markers)[0] == LabelText(markers[0]) && LabelTexts(markers)[1..] == LabelTexts(markers[1..])
  {
  }

  lemma FoundCons(markers: seq<Marker>)
    requires markers != []
    ensures FoundOf(markers) == [Found(markers[0].kind, markers[0].id)] + FoundOf(markers[1..])
  {
  }

  lemma {:induction false} ReadWoven(gaps: seq<string>, markers: seq<Marker>)
    requires |gaps| == |markers| + 1 && AllUntargeted(gaps) && AllReadable(markers) && AllQuiet(Names(markers))
    ensures Mentions(Weave(gaps, Links(markers))) == FoundOf(markers)
  {
    if markers == [] {
      ReadNone(gaps[0]);
    } else {
      Rest(markers);
      RestLists(markers);
      FoundCons(markers);
      ReadWoven(gaps[1..], markers[1..]);
      ReadNext(gaps, markers[0], Links(markers), Weave(gaps[1..], Links(markers[1..])));
    }
  }

  lemma ReadNext(gaps: seq<string>, m: Marker, links: seq<string>, rest: string)
    requires |gaps| == |links| + 1 && links != [] && links[0] == Link(m) && rest == Weave(gaps[1..], links[1..])
    requires Untargeted(gaps[0]) && Readable(m) && Quiet(m.name)
    ensures Mentions(Weave(gaps, links)) == [Found(m.kind, m.id)] + Mentions(rest)
  {
    WeaveNext(gaps, links);
    OwnLinkAhead(m, rest);
    var p, hit := 1 + |LabelText(m)|, Hit(Found(m.kind, m.id), |Behind(m)|);
    NextIs(gaps[0], Link(m) + rest, p, hit, rest);
    FindInRange();
    ReadAfter(Find, gaps[0], Link(m) + rest, Place(p, hit));
  }

  ghost predicate AllUnbracketed(gaps: seq<string>) {
    forall i :: 0 <= i < |gaps| ==> '[' !in gaps[i]
  }

  lemma {:induction false} UnlinkWoven(gaps: seq<string>, markers: seq<Marker>)
    requires |gaps| == |markers| + 1 && AllUnbracketed(gaps) && AllReadable(markers) && AllQuiet(Names(markers))
    ensures Unlinked(Weave(gaps, Links(markers))) == Weave(gaps, LabelTexts(markers))
  {
    if markers == [] {
      UnlinkNone(gaps[0]);
    } else {
      Rest(markers);
      RestLists(markers);
      UnlinkWoven(gaps[1..], markers[1..]);
      UnlinkNext(gaps, markers[0], Links(markers), Weave(gaps[1..], Links(markers[1..])));
      WeaveNext(gaps, LabelTexts(markers));
    }
  }

  lemma UnlinkNext(gaps: seq<string>, m: Marker, links: seq<string>, rest: string)
    requires |gaps| == |links| + 1 && links != [] && links[0] == Link(m) && rest == Weave(gaps[1..], links[1..])
    requires '[' !in gaps[0] && Readable(m) && Quiet(m.name)
    ensures Unlinked(Weave(gaps, links)) == gaps[0] + (LabelText(m) + Unlinked(rest))
  {
    WeaveNext(gaps, links);
    OwnLinkAhead(m, rest);
    var gap, s := gaps[0], Link(m) + rest;
    forall i | 0 <= i < |gap| ensures MissesAt(Find, gap + s, i) {
      FindsAtBracket((gap + s)[i..]);
    }
    FindInRange();
    LeftAlone(Find, gap + s, |gap|);
    assert (gap + s)[..|gap|] == gap && (gap + s)[|gap|..] == s;
    UnlinkOne(Find, s, Place(1 + |LabelText(m)|, Hit(Found(m.kind, m.id), |Behind(m)|)), rest);
  }

  lemma {:induction false} PartsUntargeted(gaps: seq<string>, fill: seq<string>)
    requires |gaps| == |fill| + 1 && Untargeted(Weave(gaps, fill))
    ensures AllUntargeted(gaps) && AllUntargeted(fill)
  {
    if fill != [] {
      WeaveNext(gaps, fill);
      UntargetedParts(gaps[0], fill[0] + Weave(gaps[1..], fill[1..]));
      UntargetedParts(fill[0], Weave(gaps[1..], fill[1..]));
      PartsUntargeted(gaps[1..], fill[1..]);
      assert forall i :: 0 < i < |gaps| ==> gaps[i] == gaps[1..][i - 1];
      assert forall i :: 0 < i < |fill| ==> fill[i] == fill[1..][i - 1];
    }
  }

  /** The words of the marked runs hold no whitespace. */
  lemma {:induction false} WordsUnbroken(text: string, from: nat)
    requires from <= |text|
    ensures forall i :: 0 <= i < |Parse(text, from).words| ==> NoSpace(Parse(text, from).words[i])
    decreases |text| - from
  {
    var at := NextSentinel(text, from);
    if at < |text| && (at + 1 == |text| || text[at + 1] != '@') {
      WordsUnbroken(text, at + 1);
    } else if at < |text| {
      WordsUnbroken(text, WordEnd(text, at + 2));
      NoSpaceBefore(text, at + 2);
    }
  }

  /** The mentions as the plain text shows them. */
  function AtNames(markers: seq<Marker>): (r: seq<string>)
    ensures |r| == |markers|
  {
    seq(|markers|, i requires 0 <= i < |markers| => "@" + markers[i].name)
  }

  lemma NameIsQuiet(m: Marker)
    requires Readable(m) && NoSpace(m.name) && Untargeted("@" + m.name)
    ensures Quiet(m.name)
  {
    UntargetedParts("@", m.name);
    assert '\n' !in m.name by {
      assert Space('\n');
    }
  }

  /** What the text of a linked message divides into. */
  lemma LinkedParts(text: string, markers: seq<Marker>)
    requires AllReadable(markers) && Untargeted(Strip(text)) && Parse(text, 0).words == Names(markers)
    ensures var gaps := Parse(text, 0).gaps;
      && |gaps| == |markers| + 1 && AllUntargeted(gaps) && AllQuiet(Names(markers))
      && Strip(text) == Weave(gaps, AtNames(markers))
  {
    var p := Parse(text, 0);
    AllOrNothing(text, markers);
    assert |p.words| == |Names(markers)|;
    forall i | 0 <= i < |markers| ensures Shown(p.words)[i] == AtNames(markers)[i] {
      assert p.words[i] == Names(markers)[i] && Readable(markers[i]);
      StripClean(markers[i].name);
    }
    assert Shown(p.words) == AtNames(markers);
    PartsUntargeted(p.gaps, AtNames(markers));
    WordsUnbroken(text, 0);
    forall i | 0 <= i < |markers| ensures Quiet(Names(markers)[i]) {
      assert Names(markers)[i] == p.words[i] && Untargeted(AtNames(markers)[i]);
      NameIsQuiet(markers[i]);
    }
  }

  /**
   * The backend finds in what is sent exactly the mentions that were picked, each with its kind and id and in order, if
   * they were linked, and otherwise none: for every text that is not itself written as a link and readable markers.
   */
  lemma BackendReadsMentions(text: string, markers: seq<Marker>)
    requires AllReadable(markers) && Untargeted(Strip(text))
    ensures Mentions(Serialized(text, markers)) ==
      if SENTINEL in text && Parse(text, 0).words == Names(markers) then FoundOf(markers) else []
  {
    if SENTINEL in text && Parse(text, 0).words == Names(markers) {
      LinkedParts(text, markers);
      ReadWoven(Parse(text, 0).gaps, markers);
    } else {
      ReadNone(Strip(text));
    }
  }

  /**
   * What the links show is the plain text, only that an issue's name loses the @ in front: both are the same gaps around
   * the names, with an @ before every name in the one and before all but the issues' in the other.
   */
  lemma LinksShowText(text: string, markers: seq<Marker>)
    requires AllReadable(markers) && Untargeted(Strip(text)) && '[' !in Strip(text)
    requires SENTINEL in text && Parse(text, 0).words == Names(markers)
    ensures |Parse(text, 0).gaps| == |markers| + 1
    ensures Strip(text) == Weave(Parse(text, 0).gaps, AtNames(markers))
    ensures Unlinked(Serialized(text, markers)) == Weave(Parse(text, 0).gaps, LabelTexts(markers))
    ensures (forall i :: 0 <= i < |markers| ==> markers[i].kind != Issue) ==> Unlinked(Serialized(text, markers)) == Strip(text)
  {
    var gaps := Parse(text, 0).gaps;
    LinkedParts(text, markers);
    WeaveHas(gaps, AtNames(markers), '[');
    assert AllUnbracketed(gaps);
    UnlinkWoven(gaps, markers);
    if forall i :: 0 <= i < |markers| ==> markers[i].kind != Issue {
      assert LabelTexts(markers) == AtNames(markers);
    }
  }
}
