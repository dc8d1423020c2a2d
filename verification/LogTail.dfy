/**
 * core/cmd/silieco/cmd_daemon_windows.go: finding where the last lines of a log begin by reading it
 * backwards in chunks.
 */
module LogTail {
  function Newlines(s: seq<char>): nat {
    if s == [] then 0 else Newlines(s[1..]) + if s[0] == '\n' then 1 else 0
  }

  /** Negative line counts ask for no lines. */
  function Wanted(lines: int): nat {
    if lines < 0 then 0 else lines
  }

  /** Just after the newline that leaves the wanted number of newlines; the whole file if it has no more than that. */
  ghost predicate IsTail(file: seq<char>, lines: int, start: int) {
    if Newlines(file) <= Wanted(lines) then start == 0
    else 0 < start <= |file| && file[start - 1] == '\n' && Newlines(file[start..]) == Wanted(lines)
  }

  lemma {:induction false} NewlinesConcat(a: seq<char>, b: seq<char>)
    ensures Newlines(a + b) == Newlines(a) + Newlines(b)
  {
    if a == [] {
      assert a + b == b;
    } else {
      assert (a + b)[1..] == a[1..] + b;
      NewlinesConcat(a[1..], b);
    }
  }

  /** There is one such place. */
  lemma TailUnique(file: seq<char>, lines: int, a: int, b: int)
    requires IsTail(file, lines, a) && IsTail(file, lines, b)
    ensures a == b
  {
    if a < b {
      FewerAfter(file, a, b);
    } else if b < a {
      FewerAfter(file, b, a);
    }
  }

  lemma FewerAfter(file: seq<char>, a: nat, b: nat)
    requires a < b <= |file| && file[b - 1] == '\n'
    ensures Newlines(file[a..]) > Newlines(file[b..])
  {
    assert file[a..] == file[a..b - 1] + file[b - 1..];
    NewlinesConcat(file[a..b - 1], file[b - 1..]);
    OneMoreByte(file, b - 1);
  }

  /** The lines of a log, each with its newline. */
  function Text(lines: seq<seq<char>>): seq<char> {
    if lines == [] then [] else lines[0] + ['\n'] + Text(lines[1..])
  }

  predicate Plain(line: seq<char>) {
    '\n' !in line
  }

  lemma {:induction false} PlainHasNone(line: seq<char>)
    requires Plain(line)
    ensures Newlines(line) == 0
  {
    if line != [] {
      PlainHasNone(line[1..]);
    }
  }

  lemma {:induction false} TextNewlines(lines: seq<seq<char>>)
    requires forall line :: line in lines ==> Plain(line)
    ensures Newlines(Text(lines)) == |lines|
  {
    if lines != [] {
      PlainHasNone(lines[0]);
      TextNewlines(lines[1..]);
      NewlinesConcat(lines[0], ['\n']);
      NewlinesConcat(lines[0] + ['\n'], Text(lines[1..]));
    }
  }

  lemma {:induction false} TextConcat(a: seq<seq<char>>, b: seq<seq<char>>)
    ensures Text(a + b) == Text(a) + Text(b)
  {
    if a == [] {
      assert a + b == b;
    } else {
      assert (a + b)[1..] == a[1..] + b;
      TextConcat(a[1..], b);
    }
  }

  lemma TextEnds(lines: seq<seq<char>>)
    requires lines != []
    ensures Text(lines) != [] && Text(lines)[|Text(lines)| - 1] == '\n'
  {
    var init, last := lines[..|lines| - 1], lines[|lines| - 1];
    assert lines == init + [last];
    TextConcat(init, [last]);
    assert Text([last]) == last + ['\n'] + Text([]);
  }

  /** What is printed: the last complete lines, as many as were asked for, and then an unterminated line on top of
      those. */
  lemma TailShowsLastLines(complete: seq<seq<char>>, partial: seq<char>, lines: int, start: int)
    requires forall line :: line in complete ==> Plain(line)
    requires Plain(partial)
    requires IsTail(Text(complete) + partial, lines, start)
    ensures 0 <= start <= |Text(complete) + partial|
    ensures (Text(complete) + partial)[start..] ==
      Text(if |complete| <= Wanted(lines) then complete else complete[|complete| - Wanted(lines)..]) + partial
  {
    var file := Text(complete) + partial;
    NewlinesConcat(Text(complete), partial);
    PlainHasNone(partial);
    TextNewlines(complete);
    if |complete| > Wanted(lines) {
      var cut := |complete| - Wanted(lines);
      var head, shown := complete[..cut], complete[cut..];
      assert complete == head + shown;
      TextConcat(head, shown);
      TextNewlines(shown);
      NewlinesConcat(Text(shown), partial);
      TextEnds(head);
      var at := |Text(head)|;
      assert file == Text(head) + (Text(shown) + partial);
      assert file[at..] == Text(shown) + partial;
      assert IsTail(file, lines, at);
      TailUnique(file, lines, start, at);
    }
  }

  lemma OneMoreByte(file: seq<char>, k: nat)
    requires k < |file|
    ensures Newlines(file[k..]) == Newlines(file[k + 1..]) + if file[k] == '\n' then 1 else 0
  {
    assert file[k..][1..] == file[k + 1..];
  }

  lemma Found(file: seq<char>, lines: int, k: nat)
    requires k < |file| && file[k] == '\n'
    requires Newlines(file[k + 1..]) == Wanted(lines)
    ensures IsTail(file, lines, k + 1)
  {
    assert file == file[..k] + file[k..];
    NewlinesConcat(file[..k], file[k..]);
    OneMoreByte(file, k);
  }

  /** The backward scan, for any size of buffer. */
  method TailStart(file: seq<char>, lines: int, chunkSize: nat) returns (tailStart: int)
    requires chunkSize > 0
    ensures IsTail(file, lines, tailStart)
  {
    tailStart := 0;
    var scanBuf := new char[chunkSize];
    var nlCount, pos := 0, |file|;
    assert file[pos..] == [];
    label scan:
    while pos > 0
      invariant 0 <= pos <= |file|
      invariant nlCount == Newlines(file[pos..]) && (nlCount == 0 || nlCount <= lines)
      invariant tailStart == 0
    {
      var chunk := scanBuf.Length;
      if chunk > pos {
        chunk := pos;
      }
      pos := pos - chunk;
      ReadAt(file, scanBuf, chunk, pos);
      var found, at;
      found, at, nlCount := ScanChunk(file, scanBuf, chunk, pos, nlCount, lines);
      if found {
        tailStart := at;
        break scan;
      }
    }
    assert file[0..] == file;
  }

  /** One chunk, from its last byte to its first. */
  method ScanChunk(ghost file: seq<char>, scanBuf: array<char>, chunk: nat, pos: nat, before: nat, lines: int)
    returns (found: bool, at: nat, nlCount: nat)
    requires chunk <= scanBuf.Length && pos + chunk <= |file|
    requires forall k :: 0 <= k < chunk ==> scanBuf[k] == file[pos + k]
    requires before == Newlines(file[pos + chunk..]) && (before == 0 || before <= lines)
    ensures found ==> IsTail(file, lines, at)
    ensures !found ==> nlCount == Newlines(file[pos..]) && (nlCount == 0 || nlCount <= lines)
  {
    at, nlCount := 0, before;
    var i := chunk - 1;
    while i >= 0
      invariant -1 <= i < chunk
      invariant nlCount == Newlines(file[pos + i + 1..]) && (nlCount == 0 || nlCount <= lines)
    {
      OneMoreByte(file, pos + i);
      if scanBuf[i] == '\n' {
        nlCount := nlCount + 1;
        if nlCount > lines {
          Found(file, lines, pos + i);
          return true, pos + i + 1, nlCount;
        }
      }
      i := i - 1;
    }
    found := false;
  }

  /** Fills the front of the buffer from the file. */
  method ReadAt(file: seq<char>, buf: array<char>, n: nat, pos: nat)
    requires n <= buf.Length && pos + n <= |file|
    modifies buf
    ensures forall k :: 0 <= k < n ==> buf[k] == file[pos + k]
  {
    for i := 0 to n
      invariant forall k :: 0 <= k < i ==> buf[k] == file[pos + k]
    {
      buf[i] := file[pos + i];
    }
  }
}
