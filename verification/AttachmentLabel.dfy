/**
 * core/cmd/silieco/cmd_attachment.go: file names escaped into attachment snippets, and the card renderer
 * that reads them back.
 */
module AttachmentLabel {
  import opened Common
  import IdResolver
  import MentionSerialize

  predicate Meta(c: char) {
    c in {'\\', '[', ']', '(', ')'}
  }

  function EscapeMarkdownLabel(s: string): string {
    if s == "" then "" else (if Meta(s[0]) then ['\\', s[0]] else [s[0]]) + EscapeMarkdownLabel(s[1..])
  }

  function Snippet(filename: string, url: string): string {
    "!file[" + EscapeMarkdownLabel(filename) + "](" + url + ")"
  }

  /** A dot in the renderer's pattern does not match these. */
  predicate LineEnd(c: char) {
    c in {'\n', '\r'} || c as int in {0x2028, 0x2029}
  }

  /** The label up to the first unescaped closing bracket, and what comes after that bracket. */
  function ScanLabel(s: string): Option<(string, string)> {
    if s == "" then None
    else if s[0] == ']' then Some(("", s[1..]))
    else if s[0] == '\\' then
      if |s| < 2 || LineEnd(s[1]) then None else Longer(s[..2], ScanLabel(s[2..]))
    else Longer(s[..1], ScanLabel(s[1..]))
  }

  function Longer(front: string, scanned: Option<(string, string)>): Option<(string, string)> {
    if scanned.None? then None else Some((front + scanned.value.0, scanned.value.1))
  }

  function Unescape(s: string): string {
    if s == "" then ""
    else if s[0] == '\\' && |s| > 1 && Meta(s[1]) then [s[1]] + Unescape(s[2..])
    else [s[0]] + Unescape(s[1..])
  }

  predicate NoParen(s: string) {
    ')' !in s
  }

  predicate Http(url: string) {
    ("http://" <= url && |url| > 7) || ("https://" <= url && |url| > 8)
  }

  /** Attachment downloads are named by the id between these. */
  predicate Download(url: string) {
    |url| == 62 && url[..17] == "/api/attachments/" && IdResolver.IsUuid(url[17..53]) && url[53..] == "/download"
  }

  /** The addresses a file card may have. */
  predicate GoodUrl(url: string) {
    NoParen(url) && ("/uploads/" <= url || Http(url) || Download(url))
  }

  datatype Card = Card(filename: string, url: string)

  /** One line of markdown as a file card. */
  function ParseLine(line: string): Option<Card> {
    var trimmed := TrimRight(MentionSerialize.Space, TrimLeft(MentionSerialize.Space, line));
    if !("!file[" <= trimmed) then None
    else
      match ScanLabel(trimmed[6..])
      case None => None
      case Some(scanned) =>
        var (escaped, rest) := scanned;
        if |rest| >= 2 && rest[0] == '(' && rest[|rest| - 1] == ')' && GoodUrl(rest[1..|rest| - 1])
        then Some(Card(Unescape(escaped), rest[1..|rest| - 1]))
        else None
  }

  /** The lines of a text: one more than it has line breaks. */
  function Lines(s: string, line: string): seq<string> {
    if s == "" then [line]
    else if s[0] == '\n' then [line] + Lines(s[1..], "")
    else Lines(s[1..], line + [s[0]])
  }

  function Cards(lines: seq<string>): seq<Option<Card>> {
    if lines == [] then [] else [ParseLine(lines[0])] + Cards(lines[1..])
  }

  lemma {:induction false} UnescapeEscaped(s: string)
    ensures Unescape(EscapeMarkdownLabel(s)) == s
  {
    if s != "" {
      var rest := EscapeMarkdownLabel(s[1..]);
      UnescapeEscaped(s[1..]);
      if Meta(s[0]) {
        assert EscapeMarkdownLabel(s)[2..] == rest;
      } else {
        assert EscapeMarkdownLabel(s)[1..] == rest;
      }
    }
  }

  /** The scan stops at the bracket that was written after the label, not at one inside it. */
  lemma {:induction false} ScanEscaped(s: string, rest: string)
    ensures ScanLabel(EscapeMarkdownLabel(s) + "]" + rest) == Some((EscapeMarkdownLabel(s), rest))
  {
    if s == "" {
      assert EscapeMarkdownLabel(s) + "]" + rest == "]" + rest;
    } else {
      var tail := EscapeMarkdownLabel(s[1..]) + "]" + rest;
      ScanEscaped(s[1..], rest);
      var front := if Meta(s[0]) then ['\\', s[0]] else [s[0]];
      assert EscapeMarkdownLabel(s) + "]" + rest == front + tail;
      assert (front + tail)[..|front|] == front && (front + tail)[|front|..] == tail;
    }
  }

  lemma SnippetParses(filename: string, url: string)
    ensures ParseLine(Snippet(filename, url)) == if GoodUrl(url) then Some(Card(filename, url)) else None
  {
    var line, rest := Snippet(filename, url), "(" + url + ")";
    SnippetTrims(line);
    assert line == "!file[" + (EscapeMarkdownLabel(filename) + "]" + rest);
    assert line[6..] == EscapeMarkdownLabel(filename) + "]" + rest;
    ScanEscaped(filename, rest);
    UnescapeEscaped(filename);
    assert rest[1..|rest| - 1] == url;
  }

  lemma SnippetTrims(line: string)
    requires line != "" && line[0] == '!' && line[|line| - 1] == ')'
    ensures TrimRight(MentionSerialize.Space, TrimLeft(MentionSerialize.Space, line)) == line
  {
  }

  lemma {:induction false} OneLine(s: string, line: string)
    ensures |Lines(s, line)| == 1 <==> '\n' !in s
    ensures '\n' !in s ==> Lines(s, line) == [line + s]
    ensures |Lines(s, line)| >= 1
  {
    if s == "" {
      assert line + s == line;
    } else {
      assert s == [s[0]] + s[1..];
      if s[0] == '\n' {
        OneLine(s[1..], "");
      } else {
        OneLine(s[1..], line + [s[0]]);
        assert line + [s[0]] + s[1..] == line + s;
      }
    }
  }

  lemma {:induction false} EscapeKeepsBreaks(s: string)
    ensures '\n' in EscapeMarkdownLabel(s) <==> '\n' in s
  {
    if s != "" {
      EscapeKeepsBreaks(s[1..]);
    }
  }

  lemma {:induction false} CardPerLine(lines: seq<string>)
    ensures |Cards(lines)| == |lines|
  {
    if lines != [] {
      CardPerLine(lines[1..]);
    }
  }

  lemma SnippetBreaks(filename: string, url: string)
    ensures '\n' in Snippet(filename, url) <==> '\n' in filename || '\n' in url
  {
    EscapeKeepsBreaks(filename);
    assert Snippet(filename, url) == "!file[" + EscapeMarkdownLabel(filename) + ("](" + url + ")");
    assert '\n' !in "!file[" && '\n' !in "](" && '\n' !in ")";
  }

  lemma CardsOfOneLine(s: string)
    ensures '\n' !in s ==> Cards(Lines(s, "")) == [ParseLine(s)]
    ensures '\n' in s ==> |Cards(Lines(s, ""))| != 1
  {
    OneLine(s, "");
    CardPerLine(Lines(s, ""));
    assert "" + s == s;
    assert [s][1..] == [];
    assert Cards([s]) == [ParseLine(s)];
  }

  /** The snippet renders as one card with the file's own name, for every name and address, exactly when the address
      is one a card may have and neither holds a line break. */
  lemma CardRoundTrip(filename: string, url: string)
    ensures Cards(Lines(Snippet(filename, url), "")) == [Some(Card(filename, url))] <==>
      GoodUrl(url) && '\n' !in filename && '\n' !in url
  {
    SnippetParses(filename, url);
    SnippetBreaks(filename, url);
    CardsOfOneLine(Snippet(filename, url));
  }

  // ---------------------------------------------------------------------------------------------
  // What is read as a card at all
  // ---------------------------------------------------------------------------------------------

  /** The scanned text is the label, the bracket and the rest. */
  lemma {:induction false} ScanSplits(s: string)
    ensures ScanLabel(s).Some? ==> s == ScanLabel(s).value.0 + "]" + ScanLabel(s).value.1
  {
    if s != "" && s[0] == ']' {
      assert s == "" + "]" + s[1..];
    } else if s != "" && s[0] == '\\' {
      if |s| >= 2 {
        ScanSplits(s[2..]);
        SplitLonger(s[..2], s[2..]);
        assert s == s[..2] + s[2..];
      }
    } else if s != "" {
      ScanSplits(s[1..]);
      SplitLonger(s[..1], s[1..]);
      assert s == s[..1] + s[1..];
    }
  }

  lemma SplitLonger(front: string, s: string)
    requires ScanLabel(s).Some? ==> s == ScanLabel(s).value.0 + "]" + ScanLabel(s).value.1
    ensures var r := Longer(front, ScanLabel(s)); r.Some? ==> front + s == r.value.0 + "]" + r.value.1
  {
    if ScanLabel(s).Some? {
      var name, rest := ScanLabel(s).value.0, ScanLabel(s).value.1;
      Assoc(front, name + "]", rest);
      Assoc(front, name, "]");
    }
  }

  /** A line that is read as a card is, blanks around it aside, a snippet of some label that reads as the card's name. */
  lemma CardLineIsSnippet(line: string) returns (name: string)
    requires ParseLine(line).Some?
    ensures TrimRight(MentionSerialize.Space, TrimLeft(MentionSerialize.Space, line)) ==
      "!file[" + name + "](" + ParseLine(line).value.url + ")"
    ensures Unescape(name) == ParseLine(line).value.filename && Allowed(ParseLine(line).value.url)
  {
    var trimmed := TrimRight(MentionSerialize.Space, TrimLeft(MentionSerialize.Space, line));
    var url := ParseLine(line).value.url;
    ScanSplits(trimmed[6..]);
    name := ScanLabel(trimmed[6..]).value.0;
    Parenthesized(ScanLabel(trimmed[6..]).value.1, url);
    SnippetJoins(trimmed, name, url);
    AddressAllowed(url);
  }

  lemma Parenthesized(rest: string, url: string)
    requires |rest| >= 2 && rest[0] == '(' && rest[|rest| - 1] == ')' && url == rest[1..|rest| - 1]
    ensures rest == "(" + url + ")"
  {
  }

  lemma SnippetJoins(s: string, name: string, url: string)
    requires "!file[" <= s && s[6..] == name + "]" + ("(" + url + ")")
    ensures s == "!file[" + name + "](" + url + ")"
  {
    assert s == "!file[" + s[6..];
  }

  /** A path of the server or an address on the web, with this in it. */
  predicate Address(url: string, rest: string) {
    || url == "/uploads/" + rest
    || (url == "http://" + rest && rest != "")
    || (url == "https://" + rest && rest != "")
    || (url == "/api/attachments/" + rest + "/download" && IdResolver.IsUuid(rest))
  }

  /** One of these, without a parenthesis that would end it early. */
  ghost predicate Allowed(url: string) {
    ')' !in url && exists rest: string :: Address(url, rest)
  }

  /** The addresses a card may have are these and no others. */
  lemma AddressAllowed(url: string)
    ensures GoodUrl(url) <==> Allowed(url)
  {
    if GoodUrl(url) {
      var rest := AddressOf(url);
    }
    if rest: string :| Address(url, rest) {
      AddressIsGood(url, rest);
    }
  }

  lemma AddressOf(url: string) returns (rest: string)
    requires GoodUrl(url)
    ensures Address(url, rest)
  {
    if "/uploads/" <= url {
      rest := url[9..];
      assert url == "/uploads/" + rest;
    } else if "http://" <= url {
      rest := url[7..];
      assert url == "http://" + rest;
    } else if "https://" <= url {
      rest := url[8..];
      assert url == "https://" + rest;
    } else {
      rest := url[17..53];
      assert url == url[..17] + rest + url[53..];
    }
  }

  lemma AddressIsGood(url: string, rest: string)
    requires Address(url, rest)
    ensures "/uploads/" <= url || Http(url) || Download(url)
  {
    if url == "/api/attachments/" + rest + "/download" && IdResolver.IsUuid(rest) {
      DownloadParts("/api/attachments/", rest, "/download");
    }
  }

  lemma DownloadParts(a: string, b: string, c: string)
    requires |a| == 17 && |b| == 36
    ensures var url := a + b + c; url[..17] == a && url[17..53] == b && url[53..] == c
  {
  }
}
