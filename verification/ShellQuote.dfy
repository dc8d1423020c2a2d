/** core/cmd/silieco/cmd_daemon.go: quoting one argument for a command line, and reading it back as the shell does. */
module ShellQuote {
  import opened Common

  predicate Safe(c: char) {
    c in {'-', '_', '.', '/'} || '0' <= c <= '9' || 'A' <= c <= 'Z' || 'a' <= c <= 'z'
  }

  /** Every quote becomes: close, an escaped quote, open again. */
  function ReplaceQuotes(s: string): string {
    if s == "" then "" else (if s[0] == '\'' then "'\\''" else [s[0]]) + ReplaceQuotes(s[1..])
  }

  function ShellQuoteArg(s: string): string {
    if s == "" then "''"
    else if forall c :: c in s ==> Safe(c) then s
    else "'" + ReplaceQuotes(s) + "'"
  }

  /** Where the reader is: outside a word, in a word, or between single quotes. */
  datatype Mode = Between | InWord(word: string) | Quoted(word: string)

  predicate Blank(c: char) {
    c in {' ', '\t', '\n'}
  }

  /** Characters that mean something to the shell when they are not quoted. */
  predicate Special(c: char) {
    c in {'|', '&', ';', '<', '>', '(', ')', '$', '`', '"', '*', '?', '[', '#', '~', '=', '%', '!', '{', '}'}
  }

  function Word(mode: Mode): string {
    if mode.Between? then "" else mode.word
  }

  /** The words of a command line by sections 2.2.1 (backslash) and 2.2.2 (single quotes) of the POSIX Shell Command
      Language. None when a quote is left open or something else the shell interprets stands unquoted. */
  function Words(s: string, mode: Mode): Option<seq<string>> {
    if s == "" then
      if mode.Quoted? then None else Some(if mode.InWord? then [mode.word] else [])
    else if mode.Quoted? then
      Words(s[1..], if s[0] == '\'' then InWord(mode.word) else Quoted(mode.word + [s[0]]))
    else if s[0] == '\'' then Words(s[1..], Quoted(Word(mode)))
    else if s[0] == '\\' then
      if |s| == 1 then None
      else Words(s[2..], if s[1] == '\n' then mode else InWord(Word(mode) + [s[1]]))
    else if Blank(s[0]) then
      Then(if mode.InWord? then [mode.word] else [], Words(s[1..], Between))
    else if Special(s[0]) then None
    else Words(s[1..], InWord(Word(mode) + [s[0]]))
  }

  function Then(words: seq<string>, rest: Option<seq<string>>): Option<seq<string>> {
    if rest.None? then None else Some(words + rest.value)
  }

  lemma {:induction false} SafeIsRead(s: string, rest: string, mode: Mode)
    requires forall c :: c in s ==> Safe(c)
    requires !mode.Quoted?
    ensures Words(s + rest, mode) == Words(rest, if s == "" then mode else InWord(Word(mode) + s))
    decreases |s|
  {
    if s == "" {
      assert s + rest == rest;
    } else {
      assert s[0] in s;
      assert s + rest == [s[0]] + (s[1..] + rest);
      SafeChar(s[0], s[1..] + rest, mode);
      SafeIsRead(s[1..], rest, InWord(Word(mode) + [s[0]]));
      WordGrows(Word(mode), s);
    }
  }

  lemma SafeChar(c: char, tail: string, mode: Mode)
    requires Safe(c) && !mode.Quoted?
    ensures Words([c] + tail, mode) == Words(tail, InWord(Word(mode) + [c]))
  {
    assert ([c] + tail)[1..] == tail;
  }

  lemma WordGrows(word: string, s: string)
    requires s != ""
    ensures word + [s[0]] + s[1..] == word + s
    ensures |s| == 1 ==> word + [s[0]] == word + s
  {
  }

  lemma {:induction false} QuotedIsRead(s: string, rest: string, word: string)
    ensures Words(ReplaceQuotes(s) + "'" + rest, Quoted(word)) == Words(rest, InWord(word + s))
    decreases |s|
  {
    var tail := ReplaceQuotes(s[if s == "" then 0 else 1..]) + "'" + rest;
    if s == "" {
      assert ReplaceQuotes(s) + "'" + rest == "'" + rest;
      assert ("'" + rest)[1..] == rest;
      assert word + s == word;
    } else {
      QuotedIsRead(s[1..], rest, word + [s[0]]);
      assert word + [s[0]] + s[1..] == word + s;
      if s[0] == '\'' {
        assert ReplaceQuotes(s) + "'" + rest == "'\\''" + tail;
        QuoteIsRead(tail, word);
      } else {
        assert ReplaceQuotes(s) + "'" + rest == [s[0]] + tail;
        assert ([s[0]] + tail)[1..] == tail;
      }
    }
  }

  lemma QuoteIsRead(tail: string, word: string)
    ensures Words("'\\''" + tail, Quoted(word)) == Words(tail, Quoted(word + "'"))
  {
    var a, b, c := "'\\''" + tail, "\\''" + tail, "'" + tail;
    assert a[1..] == b && b[2..] == c && c[1..] == tail;
    assert Words(a, Quoted(word)) == Words(b, InWord(word));
    assert Words(b, InWord(word)) == Words(c, InWord(word + "'"));
  }

  /** Wherever it stands outside quotes, a quoted argument adds exactly the argument to the word being read. */
  lemma ArgIsRead(s: string, rest: string, mode: Mode)
    requires !mode.Quoted?
    ensures Words(ShellQuoteArg(s) + rest, mode) == Words(rest, InWord(Word(mode) + s))
  {
    if s != "" && forall c :: c in s ==> Safe(c) {
      SafeIsRead(s, rest, mode);
    } else {
      var quoted := ReplaceQuotes(s) + "'" + rest;
      assert ReplaceQuotes("") == "";
      assert ShellQuoteArg(s) + rest == "'" + quoted;
      OpenQuote(quoted, mode);
      QuotedIsRead(s, rest, Word(mode));
    }
  }

  lemma OpenQuote(tail: string, mode: Mode)
    requires !mode.Quoted?
    ensures Words("'" + tail, mode) == Words(tail, Quoted(Word(mode)))
  {
    assert ("'" + tail)[1..] == tail;
  }

  /** Alone it reads as one word, the argument, for every string. */
  lemma OneWord(s: string)
    ensures Words(ShellQuoteArg(s), Between) == Some([s])
  {
    ArgIsRead(s, "", Between);
    assert ShellQuoteArg(s) + "" == ShellQuoteArg(s);
    assert "" + s == s;
  }

  function CommandLine(args: seq<string>): string {
    if args == [] then "" else ShellQuoteArg(args[0]) + " " + CommandLine(args[1..])
  }

  /** A line of quoted arguments reads back as those arguments. */
  lemma {:induction false} LineRoundTrip(args: seq<string>)
    ensures Words(CommandLine(args), Between) == Some(args)
  {
    if args != [] {
      var rest := CommandLine(args[1..]);
      assert CommandLine(args) == ShellQuoteArg(args[0]) + (" " + rest);
      ArgIsRead(args[0], " " + rest, Between);
      assert "" + args[0] == args[0];
      assert (" " + rest)[1..] == rest;
      LineRoundTrip(args[1..]);
      assert [args[0]] + args[1..] == args;
    }
  }
}
