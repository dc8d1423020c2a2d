/**
 * What serializing a composed text promises: nothing but the marked runs changes, it is all or nothing, and a
 * draft built left to right comes back with each mention replaced in place by its own link.
 */
module MentionRoundTrip {
  import opened Common
  import opened MentionSerialize

  // ---------------------------------------------------------------------------------------------
  // Arbitrary text and markers
  // ---------------------------------------------------------------------------------------------

  lemma {:induction false} StripConcat(a: string, b: string)
    ensures Strip(a + b) == Strip(a) + Strip(b)
  {
    if a == "" {
      assert a + b == b;
    } else {
      StripConcat(a[1..], b);
      assert (a + b)[1..] == a[1..] + b;
      var first := if a[0] == SENTINEL then "" else [a[0]];
      assert first + (Strip(a[1..]) + Strip(b)) == first + Strip(a[1..]) + Strip(b);
    }
  }

  /** The runs as the plain text shows them. */
  function Shown(words: seq<string>): (r: seq<string>)
    ensures |r| == |words|
  {
    seq(|words|, i requires 0 <= i < |words| => "@" + Strip(words[i]))
  }

  ghost predicate Clean(gaps: seq<string>) {
    forall i :: 0 <= i < |gaps| ==> SENTINEL !in gaps[i]
  }

  lemma StripHead(c: char, s: string)
    ensures Strip([c] + s) == (if c == SENTINEL then "" else [c]) + Strip(s)
  {
    assert ([c] + s)[1..] == s;
  }

  lemma Split(text: string, a: nat, b: nat, c: nat)
    requires a <= b <= c <= |text|
    ensures text[a..c] == text[a..b] + text[b..c]
    ensures text[a..] == text[a..b] + text[b..]
  {
  }

  /** Up to the first sentinel nothing changes; the sentinel goes. */
  lemma StripSplit(text: string, from: nat, at: nat)
    requires from <= at < |text| && text[at] == SENTINEL && SENTINEL !in text[from..at]
    ensures Strip(text[from..]) == text[from..at] + Strip(text[at + 1..])
  {
    Split(text, from, at, |text|);
    StripConcat(text[from..at], text[at..]);
    StripClean(text[from..at]);
    assert text[at..] == [SENTINEL] + text[at + 1..];
    StripHead(SENTINEL, text[at + 1..]);
    assert "" + Strip(text[at + 1..]) == Strip(text[at + 1..]);
  }

  lemma RunStrips(text: string, from: nat, at: nat, end: nat)
    requires from <= at && at + 2 <= end <= |text| && text[at] == SENTINEL && text[at + 1] == '@'
    requires SENTINEL !in text[from..at]
    ensures Strip(text[from..]) == text[from..at] + ("@" + Strip(text[at + 2..end])) + Strip(text[end..])
  {
    StripSplit(text, from, at);
    var word, tail := Strip(text[at + 2..end]), Strip(text[end..]);
    assert text[at + 1..] == ['@'] + text[at + 2..];
    StripHead('@', text[at + 2..]);
    Split(text, at + 2, end, |text|);
    StripConcat(text[at + 2..end], text[end..]);
    Regroup(text[from..at], "@", word, tail);
  }

  lemma Regroup(a: string, b: string, c: string, d: string)
    ensures a + (b + (c + d)) == a + (b + c) + d
  {
  }

  lemma WeaveCons(gap: string, gaps: seq<string>, filling: string, fill: seq<string>)
    requires |gaps| == |fill| + 1
    ensures Weave([gap] + gaps, [filling] + fill) == gap + filling + Weave(gaps, fill)
  {
    assert ([gap] + gaps)[1..] == gaps && ([filling] + fill)[1..] == fill;
  }

  lemma ShownCons(word: string, words: seq<string>)
    ensures Shown([word] + words) == ["@" + Strip(word)] + Shown(words)
  {
  }

  ghost predicate Divides(text: string, from: nat)
    requires from <= |text|
  {
    Clean(Parse(text, from).gaps) && Strip(text[from..]) == Weave(Parse(text, from).gaps, Shown(Parse(text, from).words))
  }

  lemma StrayFirst(text: string, from: nat, at: nat)
    requires from <= |text| && at == NextSentinel(text, from) && at < |text|
    requires (at + 1 == |text| || text[at + 1] != '@') && Divides(text, at + 1)
    ensures Divides(text, from)
  {
    var rest := Parse(text, at + 1);
    assert Parse(text, from) == Prepend(text[from..at], rest);
    NoSentinelBefore(text, from);
    StripSplit(text, from, at);
    WeavePrepend(text[from..at], rest.gaps, Shown(rest.words));
  }

  lemma RunFirst(text: string, from: nat, at: nat, end: nat)
    requires from <= |text| && at == NextSentinel(text, from) && at + 1 < |text|
    requires text[at + 1] == '@' && end == WordEnd(text, at + 2) && Divides(text, end)
    ensures Divides(text, from)
  {
    RunParses(text, from, at, end);
    NoSentinelBefore(text, from);
    RunStrips(text, from, at, end);
    RunDivides(text[from..at], text[at + 2..end], Parse(text, end));
  }

  lemma RunDivides(gap: string, word: string, rest: Parsed)
    requires |rest.gaps| == |rest.words| + 1
    ensures SENTINEL !in gap && Clean(rest.gaps) ==> Clean([gap] + rest.gaps)
    ensures Weave([gap] + rest.gaps, Shown([word] + rest.words)) ==
      gap + ("@" + Strip(word)) + Weave(rest.gaps, Shown(rest.words))
  {
    ShownCons(word, rest.words);
    WeaveCons(gap, rest.gaps, "@" + Strip(word), Shown(rest.words));
  }

  /** Stripping the sentinels leaves the gaps with the bare words in between. */
  lemma {:induction false} StripIsWeave(text: string, from: nat)
    requires from <= |text|
    ensures Divides(text, from)
    decreases |text| - from
  {
    var at := NextSentinel(text, from);
    if at == |text| {
      assert text[from..at] == text[from..];
      NoSentinelBefore(text, from);
      StripClean(text[from..]);
    } else if at + 1 == |text| || text[at + 1] != '@' {
      StripIsWeave(text, at + 1);
      StrayFirst(text, from, at);
    } else {
      StripIsWeave(text, WordEnd(text, at + 2));
      RunFirst(text, from, at, WordEnd(text, at + 2));
    }
  }

  /**
   * All or nothing, for every text and every marker list: either the sentinel-free text, or the same text with
   * every marked run replaced by its own marker's link, all markers used once and in order.
   */
  lemma AllOrNothing(text: string, markers: seq<Marker>)
    ensures var p, r := Parse(text, 0), Serialized(text, markers);
      && Clean(p.gaps) && Strip(text) == Weave(p.gaps, Shown(p.words))
      && (SENTINEL in text && p.words == Names(markers) ==> r == Weave(p.gaps, Links(markers)))
      && (SENTINEL !in text || p.words != Names(markers) ==> r == Strip(text))
  {
    StripIsWeave(text, 0);
    assert text[0..] == text;
  }

  lemma {:induction false} WeaveHas(gaps: seq<string>, fill: seq<string>, c: char)
    requires |gaps| == |fill| + 1
    ensures c in Weave(gaps, fill) <==>
            (exists i :: 0 <= i < |gaps| && c in gaps[i]) || (exists i :: 0 <= i < |fill| && c in fill[i])
  {
    if fill != [] {
      WeaveHas(gaps[1..], fill[1..], c);
      var tail := Weave(gaps[1..], fill[1..]);
      assert c in gaps[0] + fill[0] + tail <==> c in gaps[0] || c in fill[0] || c in tail;
      assert forall i :: 0 < i < |gaps| ==> gaps[i] == gaps[1..][i - 1];
      assert forall i :: 0 < i < |fill| ==> fill[i] == fill[1..][i - 1];
      assert forall i :: 0 <= i < |gaps| - 1 ==> gaps[1..][i] == gaps[i + 1];
      assert forall i :: 0 <= i < |fill| - 1 ==> fill[1..][i] == fill[i + 1];
    }
  }

  lemma LinkHasSentinel(m: Marker)
    ensures SENTINEL in Link(m) <==> SENTINEL in m.name || SENTINEL in m.id
  {
    assert SENTINEL in Label(m) <==> SENTINEL in m.name;
    assert SENTINEL !in TypeName(m.kind);
  }

  /** A sentinel survives only inside a link whose marker itself holds one. */
  lemma SentinelSurvivesOnlyFromMarkers(text: string, markers: seq<Marker>)
    ensures SENTINEL in Serialized(text, markers) <==>
            && SENTINEL in text && Parse(text, 0).words == Names(markers)
            && exists i :: 0 <= i < |markers| && (SENTINEL in markers[i].name || SENTINEL in markers[i].id)
  {
    StripIsWeave(text, 0);
    StripClean(text);
    var p := Parse(text, 0);
    if SENTINEL in text && p.words == Names(markers) {
      WeaveHas(p.gaps, Links(markers), SENTINEL);
      forall i | 0 <= i < |markers|
        ensures SENTINEL in Links(markers)[i] <==> SENTINEL in markers[i].name || SENTINEL in markers[i].id
      {
        LinkHasSentinel(markers[i]);
      }
    }
  }

  // ---------------------------------------------------------------------------------------------
  // Composed text
  // ---------------------------------------------------------------------------------------------

  datatype Piece = Plain(s: string) | Mention(m: Marker)

  /** What the text field holds. */
  function Typed(ps: seq<Piece>): string {
    if ps == [] then ""
    else (match ps[0] case Plain(s) => s case Mention(m) => Run(m)) + Typed(ps[1..])
  }

  /** What should be sent. */
  function Sent(ps: seq<Piece>): string {
    if ps == [] then ""
    else (match ps[0] case Plain(s) => s case Mention(m) => Link(m)) + Sent(ps[1..])
  }

  function MarkersOf(ps: seq<Piece>): seq<Marker> {
    if ps == [] then []
    else (match ps[0] case Plain(_) => [] case Mention(m) => [m]) + MarkersOf(ps[1..])
  }

  /** The i-th mention handed the i-th marker. */
  function Relabel(ps: seq<Piece>, ms: seq<Marker>): seq<Piece>
    requires |ms| == |MarkersOf(ps)|
  {
    if ps == [] then []
    else if ps[0].Plain? then [ps[0]] + Relabel(ps[1..], ms)
    else [Mention(ms[0])] + Relabel(ps[1..], ms[1..])
  }

  lemma ConsFacts(p: Piece, rest: seq<Piece>)
    ensures Typed([p] + rest) == (match p case Plain(s) => s case Mention(m) => Run(m)) + Typed(rest)
    ensures Sent([p] + rest) == (match p case Plain(s) => s case Mention(m) => Link(m)) + Sent(rest)
    ensures MarkersOf([p] + rest) == (match p case Plain(_) => [] case Mention(m) => [m]) + MarkersOf(rest)
    ensures Composed([p] + rest) <==>
            && Composed(rest)
            && (p.Plain? ==> SENTINEL !in p.s)
            && (p.Mention? && rest != [] ==> rest[0].Plain? && rest[0].s != "" && Space(rest[0].s[0]))
  {
    assert ([p] + rest)[1..] == rest;
  }

  /** Plain pieces hold no sentinel, and whitespace or the end follows every mention. */
  ghost predicate Composed(ps: seq<Piece>) {
    ps != [] ==>
      && Composed(ps[1..])
      && (ps[0].Plain? ==> SENTINEL !in ps[0].s)
      && (ps[0].Mention? && |ps| > 1 ==> ps[1].Plain? && ps[1].s != "" && Space(ps[1].s[0]))
  }

  ghost predicate NamesUnbroken(ps: seq<Piece>) {
    forall i :: 0 <= i < |ps| && ps[i].Mention? ==> NoSpace(ps[i].m.name)
  }

  lemma {:induction false} SentinelAhead(text: string, from: nat, mid: nat)
    requires from <= mid <= |text| && SENTINEL !in text[from..mid]
    ensures NextSentinel(text, from) == NextSentinel(text, mid)
    decreases mid - from
  {
    if from < mid {
      assert text[from..mid] == [text[from]] + text[from + 1..mid];
      SentinelAhead(text, from + 1, mid);
    }
  }

  /** A sentinel-free stretch is copied. */
  lemma CopyStretch(text: string, from: nat, mid: nat, ms: seq<Marker>)
    requires from <= mid <= |text| && SENTINEL !in text[from..mid]
    ensures Linked(text, from, ms) == Then(text[from..mid], Linked(text, mid, ms))
  {
    SentinelAhead(text, from, mid);
    var at := NextSentinel(text, mid);
    Split(text, from, mid, at);
    ThenThen(text[from..mid], text[mid..at], AfterGap(text, at, ms));
  }

  lemma {:induction false} WordEndAt(text: string, from: nat, end: nat)
    requires from <= end <= |text| && NoSpace(text[from..end])
    requires end < |text| ==> Space(text[end])
    ensures WordEnd(text, from) == end
    decreases end - from
  {
    if from < end {
      assert !Space(text[from..end][0]);
      assert text[from + 1..end] == text[from..end][1..];
      WordEndAt(text, from + 1, end);
    }
  }

  lemma {:induction false} WordEndsEarly(text: string, from: nat, end: nat)
    requires from <= end <= |text| && !NoSpace(text[from..end])
    ensures WordEnd(text, from) < end
    decreases end - from
  {
    if !Space(text[from]) {
      assert text[from + 1..end] == text[from..end][1..];
      WordEndsEarly(text, from + 1, end);
    }
  }

  /** The run at the head of the rest of the text, met by the markers left. */
  lemma LinkedAtRun(text: string, at: nat, end: nat, ms: seq<Marker>)
    requires at + 1 < |text| && text[at] == SENTINEL && text[at + 1] == '@' && end == WordEnd(text, at + 2)
    ensures Linked(text, at, ms) ==
            if ms == [] || ms[0].name != text[at + 2..end] then None else Then(Link(ms[0]), Linked(text, end, ms[1..]))
  {
    assert NextSentinel(text, at) == at;
    assert text[at..at] == "";
    ThenNothing(AfterGap(text, at, ms));
  }

  /** How a mention is typed. */
  function Run(m: Marker): (r: string)
    ensures |r| == |m.name| + 2 && r[0] == SENTINEL && r[1] == '@' && r[2..] == m.name
  {
    [SENTINEL] + "@" + m.name
  }

  lemma RunInText(pre: string, m: Marker, tail: string)
    ensures var text := pre + Run(m) + tail;
      && text[|pre|] == SENTINEL && text[|pre| + 1] == '@'
      && text[|pre| + 2..|pre| + 2 + |m.name|] == m.name
      && text[|pre| + 2 + |m.name|..] == tail
  {
  }

  lemma MentionMet(text: string, pre: string, m: Marker, tail: string, ms: seq<Marker>)
    requires text == pre + Run(m) + tail
    requires NoSpace(m.name) && (tail == "" || Space(tail[0]))
    ensures Linked(text, |pre|, ms) ==
            if ms == [] || ms[0].name != m.name then None
            else Then(Link(ms[0]), Linked(text, |pre| + 2 + |m.name|, ms[1..]))
  {
    RunInText(pre, m, tail);
    var end := |pre| + 2 + |m.name|;
    assert end < |text| ==> text[end] == tail[0];
    WordEndAt(text, |pre| + 2, end);
    LinkedAtRun(text, |pre|, end, ms);
  }

  lemma MentionMissed(text: string, pre: string, m: Marker, tail: string, ms: seq<Marker>)
    requires text == pre + Run(m) + tail
    requires !NoSpace(m.name) && ms != [] && ms[0] == m
    ensures Linked(text, |pre|, ms).None?
  {
    RunInText(pre, m, tail);
    var end := |pre| + 2 + |m.name|;
    WordEndsEarly(text, |pre| + 2, end);
    LinkedAtRun(text, |pre|, WordEnd(text, |pre| + 2), ms);
  }

  lemma PlainTurn(text: string, pre: string, s: string, tail: string, ms: seq<Marker>)
    requires text == pre + s + tail && SENTINEL !in s
    ensures Linked(text, |pre|, ms) == Then(s, Linked(text, |pre + s|, ms))
  {
    assert text[|pre|..|pre| + |s|] == s;
    CopyStretch(text, |pre|, |pre| + |s|, ms);
  }

  /** What sending comes to for pieces ps and markers ms. */
  function Outcome(ps: seq<Piece>, ms: seq<Marker>): Option<string> {
    if Names(ms) == Names(MarkersOf(ps)) then Some(Sent(Relabel(ps, ms))) else None
  }

  lemma OutcomePlain(ps: seq<Piece>, ms: seq<Marker>)
    requires ps != [] && ps[0].Plain?
    ensures Outcome(ps, ms) == Then(ps[0].s, Outcome(ps[1..], ms))
  {
    assert MarkersOf(ps) == MarkersOf(ps[1..]);
    if Names(ms) == Names(MarkersOf(ps)) {
      assert Relabel(ps, ms)[1..] == Relabel(ps[1..], ms);
    }
  }

  lemma OutcomeMention(ps: seq<Piece>, ms: seq<Marker>)
    requires ps != [] && ps[0].Mention?
    ensures Outcome(ps, ms) ==
            if ms == [] || ms[0].name != ps[0].m.name then None else Then(Link(ms[0]), Outcome(ps[1..], ms[1..]))
  {
    var rest := MarkersOf(ps[1..]);
    assert MarkersOf(ps) == [ps[0].m] + rest;
    NamesCons(MarkersOf(ps));
    assert MarkersOf(ps)[1..] == rest;
    if ms == [] {
      assert Names(ms) == [];
    } else {
      NamesCons(ms);
      ConsInjective(ms[0].name, Names(ms[1..]), ps[0].m.name, Names(rest));
      RelabelCons(ps, ms);
    }
  }

  lemma TypedCons(pre: string, ps: seq<Piece>)
    requires ps != []
    ensures var head := match ps[0] case Plain(s) => s case Mention(m) => Run(m);
      pre + Typed(ps) == pre + head + Typed(ps[1..])
  {
    var head := match ps[0] case Plain(s) => s case Mention(m) => Run(m);
    assert Typed(ps) == head + Typed(ps[1..]);
    Assoc(pre, head, Typed(ps[1..]));
  }

  lemma PlainFirst(pre: string, ps: seq<Piece>, ms: seq<Marker>)
    requires ps != [] && ps[0].Plain? && SENTINEL !in ps[0].s
    requires Linked((pre + ps[0].s) + Typed(ps[1..]), |pre + ps[0].s|, ms) == Outcome(ps[1..], ms)
    ensures Linked(pre + Typed(ps), |pre|, ms) == Outcome(ps, ms)
  {
    TypedCons(pre, ps);
    PlainTurn(pre + Typed(ps), pre, ps[0].s, Typed(ps[1..]), ms);
    OutcomePlain(ps, ms);
  }

  lemma MentionFirst(pre: string, ps: seq<Piece>, ms: seq<Marker>)
    requires ps != [] && ps[0].Mention? && NoSpace(ps[0].m.name)
    requires Typed(ps[1..]) == "" || Space(Typed(ps[1..])[0])
    requires ms != [] ==>
      Linked((pre + Run(ps[0].m)) + Typed(ps[1..]), |pre + Run(ps[0].m)|, ms[1..]) == Outcome(ps[1..], ms[1..])
    ensures Linked(pre + Typed(ps), |pre|, ms) == Outcome(ps, ms)
  {
    TypedCons(pre, ps);
    MentionMet(pre + Typed(ps), pre, ps[0].m, Typed(ps[1..]), ms);
    OutcomeMention(ps, ms);
  }

  /** With unbroken names the walk links exactly when the markers' names are the mentions' names in text order. */
  lemma {:induction false} LinkedPieces(pre: string, ps: seq<Piece>, ms: seq<Marker>)
    requires Composed(ps) && NamesUnbroken(ps)
    ensures Linked(pre + Typed(ps), |pre|, ms) == Outcome(ps, ms)
    decreases |ps|
  {
    if ps == [] {
      NothingLeft(pre, ms);
    } else {
      assert NamesUnbroken(ps[1..]) by { assert forall i :: 0 <= i < |ps| - 1 ==> ps[1..][i] == ps[i + 1]; }
      if ps[0].Plain? {
        LinkedPieces(pre + ps[0].s, ps[1..], ms);
        PlainFirst(pre, ps, ms);
      } else {
        TypedStartsWithSpace(ps[1..]);
        if ms != [] {
          LinkedPieces(pre + Run(ps[0].m), ps[1..], ms[1..]);
        }
        MentionFirst(pre, ps, ms);
      }
    }
  }

  lemma NothingLeft(pre: string, ms: seq<Marker>)
    ensures Linked(pre + Typed([]), |pre|, ms) == Outcome([], ms)
  {
    assert pre + Typed([]) == pre && pre[|pre|..] == "";
    assert Names(ms) == Names(MarkersOf([])) <==> ms == [];
  }

  lemma RelabelCons(ps: seq<Piece>, ms: seq<Marker>)
    requires ps != [] && ps[0].Mention? && ms != []
    ensures MarkersOf(ps) == [ps[0].m] + MarkersOf(ps[1..])
    ensures |ms| == |MarkersOf(ps)| ==> Sent(Relabel(ps, ms)) == Link(ms[0]) + Sent(Relabel(ps[1..], ms[1..]))
  {
    if |ms| == |MarkersOf(ps)| {
      assert Relabel(ps, ms)[1..] == Relabel(ps[1..], ms[1..]);
    }
  }

  lemma TypedStartsWithSpace(rest: seq<Piece>)
    requires rest != [] ==> rest[0].Plain? && rest[0].s != "" && Space(rest[0].s[0])
    ensures Typed(rest) == "" || Space(Typed(rest)[0])
  {
  }

  // ---------------------------------------------------------------------------------------------
  // The round trip
  // ---------------------------------------------------------------------------------------------

  lemma {:induction false} SentinelInTyped(ps: seq<Piece>)
    requires Composed(ps)
    ensures SENTINEL in Typed(ps) <==> MarkersOf(ps) != []
    ensures MarkersOf(ps) == [] ==> Typed(ps) == Sent(ps)
  {
    if ps != [] {
      SentinelInTyped(ps[1..]);
      if ps[0].Mention? {
        assert Typed(ps)[0] == SENTINEL;
      }
    }
  }

  /** Whatever marker list the text is sent with: it links exactly when the names are those of the mentions, in text order. */
  lemma SentWithAnyMarkers(ps: seq<Piece>, ms: seq<Marker>)
    requires Composed(ps) && NamesUnbroken(ps)
    ensures Serialized(Typed(ps), ms) ==
            if Names(ms) == Names(MarkersOf(ps)) then Sent(Relabel(ps, ms)) else Strip(Typed(ps))
  {
    LinkedPieces("", ps, ms);
    assert "" + Typed(ps) == Typed(ps);
    LinkedIsWeave(Typed(ps), 0, ms);
    SentinelInTyped(ps);
    StripClean(Typed(ps));
    if MarkersOf(ps) == [] && Names(ms) == Names(MarkersOf(ps)) {
      assert ms == MarkersOf(ps);
      RelabelSame(ps);
    }
  }

  lemma {:induction false} RelabelSame(ps: seq<Piece>)
    ensures Relabel(ps, MarkersOf(ps)) == ps
  {
    if ps != [] {
      RelabelSame(ps[1..]);
      assert ps == [ps[0]] + ps[1..];
      if ps[0].Mention? {
        assert MarkersOf(ps)[1..] == MarkersOf(ps[1..]);
      } else {
        assert MarkersOf(ps) == MarkersOf(ps[1..]);
      }
    }
  }

  lemma PlainBroken(pre: string, ps: seq<Piece>)
    requires ps != [] && ps[0].Plain? && SENTINEL !in ps[0].s
    requires Linked((pre + ps[0].s) + Typed(ps[1..]), |pre + ps[0].s|, MarkersOf(ps[1..])).None?
    ensures Linked(pre + Typed(ps), |pre|, MarkersOf(ps)).None?
  {
    TypedCons(pre, ps);
    assert MarkersOf(ps) == MarkersOf(ps[1..]);
    PlainTurn(pre + Typed(ps), pre, ps[0].s, Typed(ps[1..]), MarkersOf(ps));
  }

  lemma MentionBroken(pre: string, ps: seq<Piece>)
    requires ps != [] && ps[0].Mention? && NoSpace(ps[0].m.name)
    requires Typed(ps[1..]) == "" || Space(Typed(ps[1..])[0])
    requires Linked((pre + Run(ps[0].m)) + Typed(ps[1..]), |pre + Run(ps[0].m)|, MarkersOf(ps[1..])).None?
    ensures Linked(pre + Typed(ps), |pre|, MarkersOf(ps)).None?
  {
    TypedCons(pre, ps);
    RunMarkers(ps);
    RunGivesUp(pre + Typed(ps), pre, ps[0].m, Typed(ps[1..]), MarkersOf(ps));
  }

  lemma RunMarkers(ps: seq<Piece>)
    requires ps != [] && ps[0].Mention?
    ensures MarkersOf(ps) != [] && MarkersOf(ps)[1..] == MarkersOf(ps[1..])
  {
  }

  lemma RunGivesUp(text: string, pre: string, m: Marker, tail: string, ms: seq<Marker>)
    requires text == pre + Run(m) + tail && NoSpace(m.name) && (tail == "" || Space(tail[0]))
    requires ms != [] && Linked(text, |pre + Run(m)|, ms[1..]).None?
    ensures Linked(text, |pre|, ms).None?
  {
    MentionMet(text, pre, m, tail, ms);
  }

  /** One name holding whitespace and the walk gives up. */
  lemma {:induction false} BrokenNameFails(pre: string, ps: seq<Piece>)
    requires Composed(ps) && !NamesUnbroken(ps)
    ensures Linked(pre + Typed(ps), |pre|, MarkersOf(ps)).None?
    decreases |ps|
  {
    if ps[0].Mention? && !NoSpace(ps[0].m.name) {
      TypedCons(pre, ps);
      MentionMissed(pre + Typed(ps), pre, ps[0].m, Typed(ps[1..]), MarkersOf(ps));
    } else {
      RestBroken(ps);
      if ps[0].Plain? {
        BrokenNameFails(pre + ps[0].s, ps[1..]);
        PlainBroken(pre, ps);
      } else {
        BrokenNameFails(pre + Run(ps[0].m), ps[1..]);
        TypedStartsWithSpace(ps[1..]);
        MentionBroken(pre, ps);
      }
    }
  }

  lemma RestBroken(ps: seq<Piece>)
    requires ps != [] && !NamesUnbroken(ps) && (ps[0].Mention? ==> NoSpace(ps[0].m.name))
    ensures !NamesUnbroken(ps[1..])
  {
    var i :| 0 <= i < |ps| && ps[i].Mention? && !NoSpace(ps[i].m.name);
    assert ps[1..][i - 1] == ps[i];
  }

  /** Plain text is shorter than the linked one. */
  lemma {:induction false} StrippedIsShorter(ps: seq<Piece>)
    requires Composed(ps)
    ensures |Strip(Typed(ps))| <= |Sent(ps)|
    ensures MarkersOf(ps) != [] ==> |Strip(Typed(ps))| < |Sent(ps)|
  {
    if ps != [] {
      StrippedIsShorter(ps[1..]);
      var head := match ps[0] case Plain(s) => s case Mention(m) => Run(m);
      StripConcat(head, Typed(ps[1..]));
      if ps[0].Plain? {
        StripClean(head);
      } else {
        StripHead(SENTINEL, "@" + ps[0].m.name);
        assert [SENTINEL] + ("@" + ps[0].m.name) == head;
        assert "" + Strip("@" + ps[0].m.name) == Strip("@" + ps[0].m.name);
        StripNoLonger("@" + ps[0].m.name);
        assert |Link(ps[0].m)| > |ps[0].m.name| + 1;
      }
    }
  }

  lemma {:induction false} StripNoLonger(s: string)
    ensures |Strip(s)| <= |s|
  {
    if s != "" {
      StripNoLonger(s[1..]);
    }
  }

  /** A composed text sent with its own markers links every mention in place exactly when no name holds whitespace. */
  lemma RoundTrip(ps: seq<Piece>)
    requires Composed(ps)
    ensures Serialized(Typed(ps), MarkersOf(ps)) == Sent(ps) <==> NamesUnbroken(ps)
  {
    if NamesUnbroken(ps) {
      SentWithAnyMarkers(ps, MarkersOf(ps));
      RelabelSame(ps);
    } else {
      BrokenNameFails("", ps);
      assert "" + Typed(ps) == Typed(ps);
      LinkedIsWeave(Typed(ps), 0, MarkersOf(ps));
      var i :| 0 <= i < |ps| && ps[i].Mention? && !NoSpace(ps[i].m.name);
      HasMarker(ps, i);
      StrippedIsShorter(ps);
    }
  }

  lemma {:induction false} HasMarker(ps: seq<Piece>, i: nat)
    requires i < |ps| && ps[i].Mention?
    ensures MarkersOf(ps) != []
  {
    if i > 0 {
      HasMarker(ps[1..], i - 1);
    }
  }

  // ---------------------------------------------------------------------------------------------
  // Drafts: typing and picking suggestions, left to right
  // ---------------------------------------------------------------------------------------------

  /** Everything before `settled` is pieces; behind it is sentinel-free text still being edited. */
  datatype Draft = Draft(text: string, markers: seq<Marker>, settled: nat, pieces: seq<Piece>)

  datatype Edit =
    | Retype(tail: string)                               // rewrite everything behind the last mention
    | Pick(start: nat, queryLength: nat, m: Marker)      // replace the @query at `start` by a mention

  predicate Allowed(d: Draft, e: Edit) {
    match e
    case Retype(tail) => SENTINEL !in tail && d.settled <= |d.text|
    case Pick(start, queryLength, _) => d.settled <= start && start + 1 + queryLength <= |d.text|
  }

  function Edited(d: Draft, e: Edit): Draft
    requires Allowed(d, e)
  {
    match e
    case Retype(tail) => d.(text := d.text[..d.settled] + tail)
    case Pick(start, queryLength, m) =>
      var r := InsertMention(d.text, start, queryLength, m);
      Draft(r.newText, d.markers + [r.marker], r.caret,
            d.pieces + Picked(d.text[d.settled..start], m))
  }

  ghost predicate DraftOk(d: Draft) {
    && d.settled <= |d.text|
    && d.text[..d.settled] == Typed(d.pieces)
    && SENTINEL !in d.text[d.settled..]
    && Composed(d.pieces)
    && d.markers == MarkersOf(d.pieces)
    && (d.pieces != [] ==> d.pieces[|d.pieces| - 1].Plain?)
  }

  function Begin(): Draft {
    Draft("", [], 0, [])
  }

  lemma AppendCons(p: Piece, rest: seq<Piece>, more: seq<Piece>)
    requires Typed(rest + more) == Typed(rest) + Typed(more)
    requires MarkersOf(rest + more) == MarkersOf(rest) + MarkersOf(more)
    ensures Typed([p] + rest + more) == Typed([p] + rest) + Typed(more)
    ensures MarkersOf([p] + rest + more) == MarkersOf([p] + rest) + MarkersOf(more)
  {
    assert [p] + rest + more == [p] + (rest + more);
    ConsFacts(p, rest + more);
    ConsFacts(p, rest);
    var text := match p case Plain(s) => s case Mention(m) => Run(m);
    var markers := match p case Plain(_) => [] case Mention(m) => [m];
    Assoc(text, Typed(rest), Typed(more));
    Assoc(markers, MarkersOf(rest), MarkersOf(more));
    assert Typed([p] + rest) == text + Typed(rest);
    assert MarkersOf([p] + rest) == markers + MarkersOf(rest);
  }

  lemma {:induction false} Appended(ps: seq<Piece>, more: seq<Piece>)
    ensures Typed(ps + more) == Typed(ps) + Typed(more)
    ensures MarkersOf(ps + more) == MarkersOf(ps) + MarkersOf(more)
  {
    if ps == [] {
      assert ps + more == more;
    } else {
      Appended(ps[1..], more);
      AppendCons(ps[0], ps[1..], more);
      assert [ps[0]] + ps[1..] == ps;
    }
  }

  lemma {:induction false} ComposedAppend(ps: seq<Piece>, more: seq<Piece>)
    requires Composed(ps) && Composed(more) && (ps != [] ==> ps[|ps| - 1].Plain?)
    ensures Composed(ps + more)
  {
    if ps == [] {
      assert ps + more == more;
    } else {
      if |ps| > 1 { assert ps[1..][|ps| - 2] == ps[|ps| - 1]; }
      ComposedAppend(ps[1..], more);
      assert (ps + more)[1..] == ps[1..] + more;
    }
  }

  /** What one pick adds. */
  function Picked(gap: string, m: Marker): seq<Piece> {
    [Plain(gap)] + ([Mention(m)] + [Plain(" ")])
  }

  lemma PickedFacts(gap: string, m: Marker)
    ensures Typed(Picked(gap, m)) == gap + Marked(m)
    ensures MarkersOf(Picked(gap, m)) == [m]
    ensures SENTINEL !in gap ==> Composed(Picked(gap, m))
  {
    ConsFacts(Plain(gap), [Mention(m)] + [Plain(" ")]);
    ConsFacts(Mention(m), [Plain(" ")]);
    ConsFacts(Plain(" "), []);
    assert [Plain(" ")] == [Plain(" ")] + [];
    assert Run(m) + " " == Marked(m);
  }

  lemma PickKeepsDraft(d: Draft, start: nat, queryLength: nat, m: Marker)
    requires DraftOk(d) && Allowed(d, Pick(start, queryLength, m))
    ensures DraftOk(Edited(d, Pick(start, queryLength, m)))
  {
    var gap := d.text[d.settled..start];
    InsertRewritesToken(d.text, start, queryLength, m);
    PickedFacts(gap, m);
    Appended(d.pieces, Picked(gap, m));
    assert SENTINEL !in gap by { SubClean(d.text, d.settled, start); }
    ComposedAppend(d.pieces, Picked(gap, m));
    assert d.text[..start] == d.text[..d.settled] + gap;
    Assoc(d.text[..d.settled], gap, Marked(m));
    TailClean(d.text, d.settled, start + 1 + queryLength);
  }

  lemma SubClean(text: string, from: nat, to: nat)
    requires from <= to <= |text| && SENTINEL !in text[from..]
    ensures SENTINEL !in text[from..to]
  {
    assert forall i :: 0 <= i < to - from ==> text[from..to][i] == text[from..][i];
  }

  lemma TailClean(text: string, from: nat, to: nat)
    requires from <= to <= |text| && SENTINEL !in text[from..]
    ensures SENTINEL !in text[to..]
  {
    assert forall i :: 0 <= i < |text| - to ==> text[to..][i] == text[from..][i + to - from];
  }

  lemma EditKeepsDraft(d: Draft, e: Edit)
    requires DraftOk(d) && Allowed(d, e)
    ensures DraftOk(Edited(d, e))
  {
    match e
    case Retype(tail) =>
      var r := Edited(d, e);
      assert r.text[..d.settled] == d.text[..d.settled] && r.text[d.settled..] == tail;
    case Pick(start, queryLength, m) =>
      PickKeepsDraft(d, start, queryLength, m);
  }

  ghost predicate AllAllowed(d: Draft, edits: seq<Edit>)
    decreases |edits|
  {
    edits != [] ==> Allowed(d, edits[0]) && AllAllowed(Edited(d, edits[0]), edits[1..])
  }

  ghost function AfterEdits(d: Draft, edits: seq<Edit>): Draft
    requires AllAllowed(d, edits)
    decreases |edits|
  {
    if edits == [] then d else AfterEdits(Edited(d, edits[0]), edits[1..])
  }

  lemma {:induction false} EditsKeepDraft(d: Draft, edits: seq<Edit>)
    requires DraftOk(d) && AllAllowed(d, edits)
    ensures DraftOk(AfterEdits(d, edits))
    decreases |edits|
  {
    if edits != [] {
      EditKeepsDraft(d, edits[0]);
      EditsKeepDraft(Edited(d, edits[0]), edits[1..]);
    }
  }

  /** The pieces of a whole draft. */
  ghost function PiecesOf(d: Draft): seq<Piece>
    requires d.settled <= |d.text|
  {
    d.pieces + [Plain(d.text[d.settled..])]
  }

  /**
   * Any draft typed and picked left to right holds exactly its pieces, and is sent as that text with each mention
   * replaced in place by its own link if, and only if, no mention's name holds whitespace.
   */
  lemma DraftRoundTrip(edits: seq<Edit>)
    requires AllAllowed(Begin(), edits)
    ensures var d := AfterEdits(Begin(), edits);
      && d.settled <= |d.text|
      && Typed(PiecesOf(d)) == d.text
      && MarkersOf(PiecesOf(d)) == d.markers
      && (Serialized(d.text, d.markers) == Sent(PiecesOf(d)) <==> AllUnbroken(d.markers))
  {
    EditsKeepDraft(Begin(), edits);
    var d := AfterEdits(Begin(), edits);
    DraftPieces(d);
    RoundTrip(PiecesOf(d));
    NamesAgree(PiecesOf(d));
  }

  lemma DraftPieces(d: Draft)
    requires DraftOk(d)
    ensures Typed(PiecesOf(d)) == d.text && MarkersOf(PiecesOf(d)) == d.markers && Composed(PiecesOf(d))
  {
    var tail := d.text[d.settled..];
    ConsFacts(Plain(tail), []);
    assert [Plain(tail)] == [Plain(tail)] + [];
    assert tail + "" == tail;
    Appended(d.pieces, [Plain(tail)]);
    assert d.text == d.text[..d.settled] + tail;
    ComposedAppend(d.pieces, [Plain(tail)]);
  }

  lemma UnbrokenCons(p: Piece, rest: seq<Piece>)
    ensures NamesUnbroken([p] + rest) <==> (p.Mention? ==> NoSpace(p.m.name)) && NamesUnbroken(rest)
  {
    var ps := [p] + rest;
    assert forall i :: 0 <= i < |rest| ==> rest[i] == ps[i + 1];
    assert ps[0] == p;
  }

  ghost predicate AllUnbroken(ms: seq<Marker>) {
    forall i :: 0 <= i < |ms| ==> NoSpace(ms[i].name)
  }

  lemma AllUnbrokenCons(m: Marker, rest: seq<Marker>)
    ensures AllUnbroken([m] + rest) <==> NoSpace(m.name) && AllUnbroken(rest)
  {
    var ms := [m] + rest;
    assert forall i :: 0 <= i < |rest| ==> rest[i] == ms[i + 1];
    assert ms[0] == m;
  }

  lemma {:induction false} NamesAgree(ps: seq<Piece>)
    ensures NamesUnbroken(ps) <==> AllUnbroken(MarkersOf(ps))
  {
    if ps != [] {
      NamesAgree(ps[1..]);
      assert ps == [ps[0]] + ps[1..];
      UnbrokenCons(ps[0], ps[1..]);
      ConsFacts(ps[0], ps[1..]);
      if ps[0].Mention? {
        AllUnbrokenCons(ps[0].m, MarkersOf(ps[1..]));
      } else {
        assert MarkersOf(ps) == MarkersOf(ps[1..]);
      }
    }
  }

  // ---------------------------------------------------------------------------------------------
  // Mentions picked out of text order: the hook appends markers in the order of picking
  // ---------------------------------------------------------------------------------------------

  /** Two mentions with a space in between. */
  function Pair(a: Marker, b: Marker): seq<Piece> {
    [Mention(a)] + ([Plain(" ")] + [Mention(b)])
  }

  lemma PairFacts(a: Marker, b: Marker)
    ensures Composed(Pair(a, b)) && MarkersOf(Pair(a, b)) == [a, b]
    ensures NoSpace(a.name) && NoSpace(b.name) ==> NamesUnbroken(Pair(a, b))
  {
    LastFacts(b);
    ConsFacts(Plain(" "), [Mention(b)]);
    ConsFacts(Mention(a), [Plain(" ")] + [Mention(b)]);
  }

  lemma LastFacts(b: Marker)
    ensures Composed([Mention(b)]) && MarkersOf([Mention(b)]) == [b]
  {
    ConsFacts(Mention(b), []);
    assert [Mention(b)] == [Mention(b)] + [];
  }

  lemma PairRelabels(a: Marker, b: Marker)
    requires |MarkersOf(Pair(a, b))| == 2
    ensures Relabel(Pair(a, b), [b, a]) == Pair(b, a)
  {
    assert Pair(a, b)[1..] == [Plain(" ")] + [Mention(b)] && ([Plain(" ")] + [Mention(b)])[1..] == [Mention(b)];
    assert [b, a][1..] == [a];
    LastFacts(b);
    assert Relabel([Mention(b)], [a]) == [Mention(a)] by { assert [Mention(b)][1..] == []; }
  }

  /** Different names: nothing is linked. */
  lemma OutOfOrderLinksNothing(a: Marker, b: Marker)
    requires NoSpace(a.name) && NoSpace(b.name) && a.name != b.name
    ensures Serialized(Typed(Pair(a, b)), [b, a]) == Strip(Typed(Pair(a, b)))
  {
    PairFacts(a, b);
    PairRelabels(a, b);
    SentWithAnyMarkers(Pair(a, b), [b, a]);
    assert Names([b, a])[0] == b.name && Names([a, b])[0] == a.name;
  }

  /** The same name twice: each is linked, but to the other one. */
  lemma OutOfOrderSwapsNamesakes(a: Marker, b: Marker)
    requires NoSpace(a.name) && NoSpace(b.name) && a.name == b.name
    ensures Serialized(Typed(Pair(a, b)), [b, a]) == Sent(Pair(b, a))
  {
    PairFacts(a, b);
    PairRelabels(a, b);
    SentWithAnyMarkers(Pair(a, b), [b, a]);
    assert Names([b, a]) == Names([a, b]);
  }
}
