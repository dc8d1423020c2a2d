/**
 * core/cmd/silieco/cmd_id_resolver.go, resolving a short id: collecting every candidate page by page, then
 * matching a normalised prefix.
 */
module IdResolver {
  import opened Common

  const MIN_PREFIX: nat := 4
  const LIMIT: nat := 50

  datatype Candidate = Candidate(id: string, display: string, detail: string)

  // ----- Normalising what was typed -----

  predicate IsSpace(c: char) {
    var n := c as int;
    9 <= n <= 13 || n in {0x20, 0x85, 0xA0, 0x1680, 0x2028, 0x2029, 0x202F, 0x205F, 0x3000} || 0x2000 <= n <= 0x200A
  }

  function Trim(s: string): string {
    TrimRight(IsSpace, TrimLeft(IsSpace, s))
  }

  function NoDashes(s: string): string {
    if s == [] then [] else (if s[0] == '-' then [] else [s[0]]) + NoDashes(s[1..])
  }

  function LowerChar(c: char): char {
    if 'A' <= c <= 'Z' then ((c as int) + 32) as char else c
  }

  function Lower(s: string): string {
    seq(|s|, i requires 0 <= i < |s| => LowerChar(s[i]))
  }

  function Compact(id: string): string {
    Lower(NoDashes(Trim(id)))
  }

  predicate LowerHex(c: char) {
    '0' <= c <= '9' || 'a' <= c <= 'f'
  }

  predicate Hex(c: char) {
    LowerHex(c) || 'A' <= c <= 'F'
  }

  lemma HexDigits(c: char)
    ensures Hex(c) <==> c in "0123456789abcdefABCDEF"
  {
    assert forall i :: 0 <= i < 22 ==> Hex("0123456789abcdefABCDEF"[i]);
  }

  predicate IsUuid(s: string) {
    |s| == 36 && forall i :: 0 <= i < 36 ==> if i in {8, 13, 18, 23} then s[i] == '-' else Hex(s[i])
  }

  function NormalizePrefix(input: string): (r: Option<string>)
    ensures r.Some? <==> |Compact(input)| >= MIN_PREFIX && HexOnly(Compact(input))
    ensures r.Some? ==> r.value == Compact(input)
  {
    var prefix := Compact(input);
    if |prefix| < MIN_PREFIX || exists c :: c in prefix && !LowerHex(c) then None else Some(prefix)
  }

  // ----- Matching -----

  datatype Resolution =
    | Resolved(id: string, display: string)
    | NoId
    | BadPrefix
    | FetchFailed
    | NotFound
    | Ambiguous(matches: seq<Candidate>)

  predicate Matches(c: Candidate, prefix: string) {
    c.id != "" && prefix <= Compact(c.id)
  }

  function Matching(candidates: seq<Candidate>, prefix: string): seq<Candidate> {
    if candidates == [] then []
    else (if Matches(candidates[0], prefix) then [candidates[0]] else []) + Matching(candidates[1..], prefix)
  }

  function Pick(matches: seq<Candidate>): Resolution {
    if matches == [] then NotFound
    else if |matches| == 1 then
      Resolved(matches[0].id, if matches[0].display == "" then matches[0].id else matches[0].display)
    else Ambiguous(matches)
  }

  /** What an input resolves to, given what fetching the candidates would return. */
  function Resolve(fetched: Option<seq<Candidate>>, input: string): Resolution {
    var trimmed := Trim(input);
    if trimmed == "" then NoId
    else if IsUuid(trimmed) then Resolved(trimmed, trimmed)
    else match NormalizePrefix(trimmed)
      case None => BadPrefix
      case Some(prefix) =>
        if fetched.None? then FetchFailed else Pick(Matching(fetched.value, prefix))
  }

  /** The only candidate the prefix fits is at this place. */
  ghost predicate OnlyMatch(candidates: seq<Candidate>, prefix: string, at: nat) {
    at < |candidates| && Matches(candidates[at], prefix) &&
    forall i :: 0 <= i < |candidates| && i != at ==> !Matches(candidates[i], prefix)
  }

  lemma {:induction false} NoneMatching(candidates: seq<Candidate>, prefix: string)
    ensures Matching(candidates, prefix) == [] <==> forall i :: 0 <= i < |candidates| ==> !Matches(candidates[i], prefix)
  {
    if candidates != [] {
      var rest := candidates[1..];
      NoneMatching(rest, prefix);
      assert forall i :: 0 <= i < |rest| ==> rest[i] == candidates[i + 1];
      if forall i :: 0 <= i < |rest| ==> !Matches(rest[i], prefix) {
        assert forall i :: 0 < i < |candidates| ==> candidates[i] == rest[i - 1];
      }
    }
  }

  /** One match is the only match. */
  lemma {:induction false} OneMatching(candidates: seq<Candidate>, prefix: string) returns (at: nat)
    requires |Matching(candidates, prefix)| == 1
    ensures OnlyMatch(candidates, prefix, at) && Matching(candidates, prefix) == [candidates[at]]
  {
    var rest := candidates[1..];
    assert forall i :: 0 < i < |candidates| ==> candidates[i] == rest[i - 1];
    if Matches(candidates[0], prefix) {
      NoneMatching(rest, prefix);
      at := 0;
    } else {
      var there := OneMatching(rest, prefix);
      at := there + 1;
    }
  }

  lemma {:induction false} OnlyMatchIsMatching(candidates: seq<Candidate>, prefix: string, at: nat)
    requires OnlyMatch(candidates, prefix, at)
    ensures Matching(candidates, prefix) == [candidates[at]]
  {
    var rest := candidates[1..];
    assert forall i :: 0 <= i < |rest| ==> rest[i] == candidates[i + 1];
    if at == 0 {
      NoneMatching(rest, prefix);
    } else {
      OnlyMatchIsMatching(rest, prefix, at - 1);
    }
  }

  /** A prefix resolves to an id exactly when one candidate alone has it. */
  lemma ResolvesExactly(candidates: seq<Candidate>, input: string, prefix: string)
    requires Trim(input) != "" && !IsUuid(Trim(input)) && NormalizePrefix(Trim(input)) == Some(prefix)
    ensures Resolve(Some(candidates), input).Resolved? <==> exists at :: OnlyMatch(candidates, prefix, at)
    ensures Resolve(Some(candidates), input) == NotFound <==>
      forall i :: 0 <= i < |candidates| ==> !Matches(candidates[i], prefix)
  {
    NoneMatching(candidates, prefix);
    if |Matching(candidates, prefix)| == 1 {
      var at := OneMatching(candidates, prefix);
    }
    if at :| OnlyMatch(candidates, prefix, at) {
      OnlyMatchIsMatching(candidates, prefix, at);
    }
  }

  /** What comes out, case by case: the one match with its id and its name, all the matches in list order, or why not. */
  lemma OutcomeExactly(fetched: Option<seq<Candidate>>, input: string, result: Resolution)
    ensures var typed := Trim(input);
      var fits := |Compact(typed)| >= 4 && forall c :: c in Compact(typed) ==> '0' <= c <= '9' || 'a' <= c <= 'f';
      Resolve(fetched, input) == result <==>
        if typed == "" then result == NoId
        else if IsUuid(typed) then result == Resolved(typed, typed)
        else if !fits then result == BadPrefix
        else if fetched.None? then result == FetchFailed
        else PicksFrom(fetched.value, Compact(typed), result)
  {
    var typed := Trim(input);
    if typed != "" && !IsUuid(typed) && fetched.Some? && NormalizePrefix(typed).Some? {
      PickExactly(fetched.value, Compact(typed), result);
    }
  }

  /** The candidate has an id, and its compact form begins with the prefix. */
  predicate Fits(c: Candidate, prefix: string) {
    c.id != "" && |Compact(c.id)| >= |prefix| && Compact(c.id)[..|prefix|] == prefix
  }

  lemma FitsMatches(c: Candidate, prefix: string)
    ensures Fits(c, prefix) <==> Matches(c, prefix)
  {
  }

  ghost predicate OnlyFit(candidates: seq<Candidate>, prefix: string, at: nat) {
    at < |candidates| && Fits(candidates[at], prefix) &&
    forall i :: 0 <= i < |candidates| && i != at ==> !Fits(candidates[i], prefix)
  }

  ghost predicate PicksFrom(candidates: seq<Candidate>, prefix: string, result: Resolution) {
    match result
    case Resolved(id, display) =>
      exists at: nat :: OnlyFit(candidates, prefix, at) && id == candidates[at].id &&
        display == if candidates[at].display == "" then candidates[at].id else candidates[at].display
    case NotFound => forall i :: 0 <= i < |candidates| ==> !Fits(candidates[i], prefix)
    case Ambiguous(matches) => |matches| > 1 && IsFiltered(candidates, prefix, matches)
    case _ => false
  }

  /** The candidates with this prefix, in their order. */
  ghost predicate IsFiltered(candidates: seq<Candidate>, prefix: string, matches: seq<Candidate>) {
    if candidates == [] then matches == []
    else if Fits(candidates[0], prefix) then
      matches != [] && matches[0] == candidates[0] && IsFiltered(candidates[1..], prefix, matches[1..])
    else IsFiltered(candidates[1..], prefix, matches)
  }

  lemma {:induction false} FilteredExactly(candidates: seq<Candidate>, prefix: string, matches: seq<Candidate>)
    ensures IsFiltered(candidates, prefix, matches) <==> matches == Matching(candidates, prefix)
  {
    if candidates != [] {
      FitsMatches(candidates[0], prefix);
      if !Matches(candidates[0], prefix) {
        FilteredExactly(candidates[1..], prefix, matches);
      } else if matches != [] {
        FilteredExactly(candidates[1..], prefix, matches[1..]);
        assert matches == [matches[0]] + matches[1..];
      }
    }
  }

  lemma OnlyFitMatches(candidates: seq<Candidate>, prefix: string, at: nat)
    ensures OnlyFit(candidates, prefix, at) <==> OnlyMatch(candidates, prefix, at)
  {
    forall i | 0 <= i < |candidates| ensures Fits(candidates[i], prefix) <==> Matches(candidates[i], prefix) {
      FitsMatches(candidates[i], prefix);
    }
  }

  lemma PickExactly(candidates: seq<Candidate>, prefix: string, result: Resolution)
    ensures Pick(Matching(candidates, prefix)) == result <==> PicksFrom(candidates, prefix, result)
  {
    NoneMatching(candidates, prefix);
    forall i | 0 <= i < |candidates| ensures Fits(candidates[i], prefix) <==> Matches(candidates[i], prefix) {
      FitsMatches(candidates[i], prefix);
    }
    if |Matching(candidates, prefix)| == 1 {
      var at := OneMatching(candidates, prefix);
      OnlyFitMatches(candidates, prefix, at);
    }
    if result.Resolved? {
      forall at: nat | OnlyFit(candidates, prefix, at) ensures Matching(candidates, prefix) == [candidates[at]] {
        OnlyFitMatches(candidates, prefix, at);
        OnlyMatchIsMatching(candidates, prefix, at);
      }
    } else if result.Ambiguous? {
      FilteredExactly(candidates, prefix, result.matches);
    }
  }

  /** Neither dashes nor capitals are left, and what has none and no outer blanks is left alone. */
  lemma CompactIsPlain(s: string)
    ensures forall c :: c in Compact(s) ==> c != '-' && !('A' <= c <= 'Z')
    ensures (s == "" || Trimmed(s)) && (forall c :: c in s ==> c != '-' && !('A' <= c <= 'Z')) ==> Compact(s) == s
  {
    var plain := NoDashes(Trim(s));
    NoDashLeft(Trim(s));
    forall c | c in Compact(s) ensures c != '-' && !('A' <= c <= 'Z') {
      var i :| 0 <= i < |plain| && Lower(plain)[i] == c;
      assert plain[i] in plain;
    }
    if (s == "" || Trimmed(s)) && forall c :: c in s ==> c != '-' && !('A' <= c <= 'Z') {
      DashFree(s);
      assert Trim(s) == s;
      assert forall i :: 0 <= i < |s| ==> s[i] in s;
    }
  }

  lemma {:induction false} NoDashLeft(s: string)
    ensures '-' !in NoDashes(s)
  {
    if s != "" {
      NoDashLeft(s[1..]);
    }
  }

  /** Once a prefix resolves, every longer prefix of the same id resolves to it too, up to the whole id, which may be
      spelled in full with its dashes. */
  lemma LongerPrefixAgrees(candidates: seq<Candidate>, short: string, long: string)
    requires !IsUuid(Trim(short)) && Resolve(Some(candidates), short).Resolved?
    requires Compact(Trim(short)) <= Compact(Trim(long)) <= Compact(Resolve(Some(candidates), short).id)
    requires IsUuid(Trim(long)) || HexOnly(Compact(Trim(long)))
    ensures !IsUuid(Trim(long)) ==> Resolve(Some(candidates), long) == Resolve(Some(candidates), short)
    ensures var r, q := Resolve(Some(candidates), short), Resolve(Some(candidates), long);
      IsUuid(Trim(long)) ==> q.Resolved? && (IsUuid(r.id) ==> Compact(q.id) == Compact(r.id))
  {
    NotBlank(long);
    if IsUuid(Trim(long)) {
      UuidLength(Trim(long));
      if IsUuid(Resolve(Some(candidates), short).id) {
        UuidLength(Resolve(Some(candidates), short).id);
      }
    } else {
      LongerMatchesAgree(candidates, Compact(Trim(short)), Compact(Trim(long)));
    }
  }

  lemma LongerMatchesAgree(candidates: seq<Candidate>, p: string, q: string)
    requires Pick(Matching(candidates, p)).Resolved? && p <= q <= Compact(Pick(Matching(candidates, p)).id)
    ensures Matching(candidates, q) == Matching(candidates, p)
  {
    var at := OneMatching(candidates, p);
    forall i | 0 <= i < |candidates| && i != at ensures !Matches(candidates[i], q) {
      if q <= Compact(candidates[i].id) {
        assert p <= Compact(candidates[i].id);
      }
    }
    OnlyMatchIsMatching(candidates, q, at);
  }

  lemma {:induction false} NoDashesConcat(a: string, b: string)
    ensures NoDashes(a + b) == NoDashes(a) + NoDashes(b)
  {
    if a == "" {
      assert a + b == b;
    } else {
      assert (a + b)[1..] == a[1..] + b;
      NoDashesConcat(a[1..], b);
    }
  }

  lemma {:induction false} DashFree(s: string)
    requires '-' !in s
    ensures NoDashes(s) == s
  {
    if s != "" {
      DashFree(s[1..]);
    }
  }

  lemma UuidTrims(id: string)
    requires IsUuid(id)
    ensures Trim(id) == id
  {
    assert Hex(id[0]) && Hex(id[35]);
  }

  /** A canonical id is 32 digits long without its dashes. */
  lemma UuidLength(id: string)
    requires IsUuid(id)
    ensures Trim(id) == id && |Compact(id)| == 32
  {
    UuidTrims(id);
    Digits(id, 0, 8);
    Digits(id, 9, 13);
    Digits(id, 14, 18);
    Digits(id, 19, 23);
    assert id[0..] == id;
    assert |NoDashes(id[24..])| == 12 by {
      assert id[24..36] == id[24..];
      DashesAt(id, 24, 36);
    }
  }

  /** One block of digits with its dash, taken off the front. */
  lemma Digits(id: string, a: nat, b: nat)
    requires IsUuid(id) && (a, b) in {(0, 8), (9, 13), (14, 18), (19, 23)}
    ensures |NoDashes(id[a..])| == b - a + |NoDashes(id[b + 1..])|
  {
    DashesAt(id, a, b);
    DashSplits(id, a, b);
  }

  /** Between the places of the dashes there are digits. */
  lemma DashesAt(id: string, a: nat, b: nat)
    requires IsUuid(id) && a <= b <= 36
    requires b <= 8 || (8 < a && b <= 13) || (13 < a && b <= 18) || (18 < a && b <= 23) || 23 < a
    ensures NoDashes(id[a..b]) == id[a..b]
  {
    forall c | c in id[a..b] ensures c != '-' {
      var i :| a <= i < b && id[i] == c;
      assert Hex(id[i]);
    }
    DashFree(id[a..b]);
  }

  lemma DashSplits(id: string, a: nat, b: nat)
    requires a <= b < |id| && id[b] == '-'
    ensures NoDashes(id[a..]) == NoDashes(id[a..b]) + NoDashes(id[b + 1..])
  {
    assert id[a..] == id[a..b] + id[b..];
    NoDashesConcat(id[a..b], id[b..]);
    assert id[b..][1..] == id[b + 1..];
  }

  /** A full id is taken as it is, whatever the server would list. */
  lemma FullIdIsItself(fetched: Option<seq<Candidate>>, id: string)
    requires IsUuid(id)
    ensures Resolve(fetched, id) == Resolved(id, id)
  {
    assert Hex(id[0]) && Hex(id[35]);
  }

  predicate HexOnly(s: string) {
    forall c :: c in s ==> LowerHex(c)
  }

  lemma NotBlank(s: string)
    requires Compact(Trim(s)) != ""
    ensures Trim(s) != ""
  {
  }

  // ----- Spelling -----

  predicate Blank(s: string) {
    forall c :: c in s ==> IsSpace(c)
  }

  /** The same characters but for the case of their letters. */
  ghost predicate SameLetters(a: string, b: string) {
    |a| == |b| && forall i :: 0 <= i < |a| ==> LowerChar(a[i]) == LowerChar(b[i])
  }

  lemma {:induction false} BlankLeft(left: string, s: string)
    requires Blank(left)
    ensures TrimLeft(IsSpace, left + s) == TrimLeft(IsSpace, s)
  {
    if left == "" {
      assert left + s == s;
    } else {
      assert (left + s)[1..] == left[1..] + s;
      BlankLeft(left[1..], s);
    }
  }

  lemma {:induction false} BlankRight(s: string, right: string)
    requires Blank(right)
    ensures TrimRight(IsSpace, s + right) == TrimRight(IsSpace, s)
  {
    if right == "" {
      assert s + right == s;
    } else {
      var last := |right| - 1;
      assert (s + right)[..|s + right| - 1] == s + right[..last];
      assert right[last] in right;
      BlankRight(s, right[..last]);
    }
  }

  /** No blank at either end. */
  ghost predicate Trimmed(s: string) {
    s != "" && !IsSpace(s[0]) && !IsSpace(s[|s| - 1])
  }

  lemma BlanksIgnored(left: string, s: string, right: string)
    requires Blank(left) && Blank(right) && Trimmed(s)
    ensures Trim(left + s + right) == s
  {
    assert left + s + right == left + (s + right);
    BlankLeft(left, s + right);
    BlankRight(s, right);
  }

  lemma DashIgnored(x: string, y: string)
    requires Trimmed(x + y)
    ensures Trimmed(x + "-" + y) && NoDashes(x + "-" + y) == NoDashes(x + y)
  {
    DashKeepsTrimmed(x, y, x + y, x + "-" + y);
    NoDashesConcat(x + "-", y);
    NoDashesConcat(x, "-");
    NoDashesConcat(x, y);
    assert NoDashes("-") == "";
  }

  lemma DashKeepsTrimmed(x: string, y: string, joined: string, dashed: string)
    requires joined == x + y && dashed == x + "-" + y && Trimmed(joined)
    ensures Trimmed(dashed)
  {
    assert dashed[0] == if x == "" then '-' else joined[0];
    assert dashed[|dashed| - 1] == if y == "" then '-' else joined[|joined| - 1];
  }

  lemma {:induction false} CaseIgnored(a: string, b: string)
    requires SameLetters(a, b)
    ensures Lower(NoDashes(a)) == Lower(NoDashes(b))
  {
    if a != "" {
      CaseIgnored(a[1..], b[1..]);
      LowerCons(a);
      LowerCons(b);
    }
  }

  lemma LowerCons(s: string)
    requires s != ""
    ensures Lower(NoDashes(s)) == (if s[0] == '-' then "" else [LowerChar(s[0])]) + Lower(NoDashes(s[1..]))
  {
  }

  lemma CaseKeepsTrimmed(a: string, b: string)
    requires SameLetters(a, b) && Trimmed(a)
    ensures Trimmed(b)
  {
    assert LowerChar(a[0]) == LowerChar(b[0]) && LowerChar(a[|a| - 1]) == LowerChar(b[|b| - 1]);
  }

  /** An id with a dash put in, its letters in another case and blanks around it is the same to the resolver, unless that
      makes it a full id or it was one. */
  lemma SpellingDoesNotMatter(fetched: Option<seq<Candidate>>, x: string, y: string, other: string,
                              left: string, right: string)
    requires Trimmed(x + y) && SameLetters(x + "-" + y, other) && Blank(left) && Blank(right)
    ensures Compact(left + other + right) == Compact(x + y)
    ensures !IsUuid(x + y) && !IsUuid(other) ==> Resolve(fetched, left + other + right) == Resolve(fetched, x + y)
  {
    DashIgnored(x, y);
    CaseKeepsTrimmed(x + "-" + y, other);
    CaseIgnored(x + "-" + y, other);
    BlanksIgnored(left, other, right);
    BlanksIgnored("", x + y, "");
    BlanksIgnored("", other, "");
    assert "" + (x + y) + "" == x + y && "" + other + "" == other;
    TrimmedSpelling(fetched, left + other + right, other, x + y);
  }

  lemma TrimmedSpelling(fetched: Option<seq<Candidate>>, given: string, trimmed: string, plain: string)
    requires Trim(given) == trimmed && Trim(trimmed) == trimmed && Trim(plain) == plain && trimmed != "" && plain != ""
    requires Lower(NoDashes(trimmed)) == Lower(NoDashes(plain))
    ensures Compact(given) == Compact(plain)
    ensures !IsUuid(plain) && !IsUuid(trimmed) ==> Resolve(fetched, given) == Resolve(fetched, plain)
  {
  }

  // ----- Collecting the candidates -----

  datatype Page = Page(items: seq<Candidate>, total: int, hasMore: bool)

  datatype Request = Request(turn: nat, offset: nat)

  /** A server answers the n-th request, for an offset, with a page or not at all. */
  type Server = (nat, nat) -> Option<Page>

  /** Every id the server can ever send comes from a finite set. */
  ghost predicate Within(serve: Server, universe: set<string>) {
    forall r: Request :: Known(serve(r.turn, r.offset), universe)
  }

  ghost predicate Known(page: Option<Page>, universe: set<string>) {
    page.Some? ==> Ids(page.value.items) <= universe + {""}
  }

  function Ids(candidates: seq<Candidate>): set<string> {
    set c | c in candidates :: c.id
  }

  /** The items with an id that was not seen yet, each id once. */
  function Fresh(items: seq<Candidate>, seen: set<string>): seq<Candidate> {
    if items == [] then []
    else if items[0].id == "" || items[0].id in seen then Fresh(items[1..], seen)
    else [items[0]] + Fresh(items[1..], seen + {items[0].id})
  }

  lemma {:induction false} FreshIsUnseen(items: seq<Candidate>, seen: set<string>)
    ensures Ids(Fresh(items, seen)) !! seen && "" !in Ids(Fresh(items, seen))
    ensures Ids(Fresh(items, seen)) <= Ids(items)
  {
    if items != [] {
      assert Ids(items) == {items[0].id} + Ids(items[1..]);
      if items[0].id == "" || items[0].id in seen {
        FreshIsUnseen(items[1..], seen);
      } else {
        var rest := Fresh(items[1..], seen + {items[0].id});
        FreshIsUnseen(items[1..], seen + {items[0].id});
        assert Ids([items[0]] + rest) == {items[0].id} + Ids(rest);
      }
    }
  }

  predicate Stops(page: Page, novel: seq<Candidate>, next: nat) {
    page.items == [] || novel == [] || |page.items| < LIMIT ||
    (!page.hasMore && page.total > 0 && next >= page.total)
  }

  lemma SeenGrows(universe: set<string>, seen: set<string>, novel: seq<Candidate>)
    requires novel != [] && Ids(novel) !! seen && Ids(novel) <= universe
    ensures |universe - (seen + Ids(novel))| < |universe - seen|
  {
    assert novel[0] in novel;
    assert novel[0].id in Ids(novel);
    Shrinks(universe - (seen + Ids(novel)), universe - seen, novel[0].id);
  }

  lemma Shrinks<T>(small: set<T>, big: set<T>, x: T)
    requires small <= big && x in big && x !in small
    ensures |small| < |big|
  {
    assert small <= big - {x};
    SubsetSize(small, big - {x});
  }

  lemma PageWithin(serve: Server, universe: set<string>, turn: nat, offset: nat, seen: set<string>)
    requires Within(serve, universe) && serve(turn, offset).Some?
    ensures var novel := Fresh(serve(turn, offset).value.items, seen);
      Ids(novel) <= universe && Ids(novel) !! seen && "" !in Ids(novel) &&
      (novel != [] ==> |universe - (seen + Ids(novel))| < |universe - seen|)
  {
    var page, r := serve(turn, offset), Request(turn, offset);
    assert Known(serve(r.turn, r.offset), universe);
    var novel := Fresh(page.value.items, seen);
    FreshIsUnseen(page.value.items, seen);
    if novel != [] {
      SeenGrows(universe, seen, novel);
    }
  }

  /** What the loop returns from a given state on: nothing once a request fails. */
  function Collect(serve: Server, ghost universe: set<string>, turn: nat, offset: nat, seen: set<string>)
    : Option<seq<Candidate>>
    requires Within(serve, universe)
    decreases |universe - seen|
  {
    if serve(turn, offset).None? then None
    else
      var page := serve(turn, offset).value;
      var novel := Fresh(page.items, seen);
      var next := offset + |page.items|;
      if Stops(page, novel, next) then Some(novel)
      else
        PageWithin(serve, universe, turn, offset, seen);
        After(novel, Collect(serve, universe, turn + 1, next, seen + Ids(novel)))
  }

  /** What has been collected put before what is still to come. */
  function After(candidates: seq<Candidate>, rest: Option<seq<Candidate>>): Option<seq<Candidate>> {
    if rest.None? then None else Some(candidates + rest.value)
  }

  lemma AfterNothing(rest: Option<seq<Candidate>>)
    ensures After([], rest) == rest
  {
    assert rest.Some? ==> [] + rest.value == rest.value;
  }

  lemma AfterBoth(a: seq<Candidate>, b: seq<Candidate>, rest: Option<seq<Candidate>>)
    ensures After(a, After(b, rest)) == After(a + b, rest)
  {
    if rest.Some? {
      assert a + (b + rest.value) == a + b + rest.value;
    }
  }

  ghost predicate DistinctIds(candidates: seq<Candidate>) {
    forall i, j :: 0 <= i < j < |candidates| ==> candidates[i].id != candidates[j].id
  }

  lemma {:induction false} FreshDistinct(items: seq<Candidate>, seen: set<string>)
    ensures DistinctIds(Fresh(items, seen))
  {
    if items == [] {
    } else if items[0].id == "" || items[0].id in seen {
      FreshDistinct(items[1..], seen);
    } else {
      var rest := Fresh(items[1..], seen + {items[0].id});
      FreshDistinct(items[1..], seen + {items[0].id});
      FreshIsUnseen(items[1..], seen + {items[0].id});
      forall j | 0 <= j < |rest| ensures rest[j].id != items[0].id {
        assert rest[j].id in Ids(rest);
      }
    }
  }

  /** Each id once, none of those seen before, no empty one, and all from the universe. */
  ghost predicate OnceEach(r: Option<seq<Candidate>>, seen: set<string>, universe: set<string>) {
    r.Some? ==> DistinctIds(r.value) && Ids(r.value) !! seen && "" !in Ids(r.value) && Ids(r.value) <= universe
  }

  /** Against any server whatever, what is collected has each id once and no empty id. */
  lemma {:induction false} CollectedDistinct(serve: Server, universe: set<string>, turn: nat, offset: nat, seen: set<string>)
    requires Within(serve, universe)
    ensures OnceEach(Collect(serve, universe, turn, offset, seen), seen, universe)
    decreases |universe - seen|
  {
    if serve(turn, offset).None? {
      NoReply(serve, universe, turn, offset, seen);
    } else {
      var page := serve(turn, offset).value;
      var novel, next := Fresh(page.items, seen), offset + |page.items|;
      var stops := Stops(page, novel, next);
      if !stops {
        PageWithin(serve, universe, turn, offset, seen);
        CollectedDistinct(serve, universe, turn + 1, next, seen + Ids(novel));
      }
      PageOnceEach(serve, universe, turn, offset, seen, page, novel, next);
    }
  }

  lemma PageOnceEach(serve: Server, universe: set<string>, turn: nat, offset: nat, seen: set<string>, page: Page,
                     novel: seq<Candidate>, next: nat)
    requires Within(serve, universe) && serve(turn, offset) == Some(page)
    requires novel == Fresh(page.items, seen) && next == offset + |page.items|
    requires !Stops(page, novel, next) ==>
      OnceEach(Collect(serve, universe, turn + 1, next, seen + Ids(novel)), seen + Ids(novel), universe)
    ensures OnceEach(Collect(serve, universe, turn, offset, seen), seen, universe)
  {
    NovelOnceEach(serve, universe, turn, offset, seen);
    CollectStep(serve, universe, turn, offset, seen, page, novel);
    if !Stops(page, novel, next) {
      Joined(novel, Collect(serve, universe, turn + 1, next, seen + Ids(novel)), seen, universe);
    }
  }

  lemma NovelOnceEach(serve: Server, universe: set<string>, turn: nat, offset: nat, seen: set<string>)
    requires Within(serve, universe) && serve(turn, offset).Some?
    ensures OnceEach(Some(Fresh(serve(turn, offset).value.items, seen)), seen, universe)
  {
    FreshDistinct(serve(turn, offset).value.items, seen);
    PageWithin(serve, universe, turn, offset, seen);
  }

  lemma Joined(a: seq<Candidate>, rest: Option<seq<Candidate>>, seen: set<string>, universe: set<string>)
    requires OnceEach(Some(a), seen, universe) && OnceEach(rest, seen + Ids(a), universe)
    ensures OnceEach(After(a, rest), seen, universe)
  {
    if rest.Some? {
      DistinctJoin(a, rest.value, seen);
    }
  }

  lemma DistinctJoin(a: seq<Candidate>, b: seq<Candidate>, seen: set<string>)
    requires DistinctIds(a) && DistinctIds(b) && Ids(b) !! seen + Ids(a) && Ids(a) !! seen
    ensures DistinctIds(a + b) && Ids(a + b) !! seen && Ids(a + b) == Ids(a) + Ids(b)
  {
    forall i, j | 0 <= i < |a| && 0 <= j < |b| ensures a[i].id != b[j].id {
      assert a[i].id in Ids(a) && b[j].id in Ids(b);
    }
  }

  function Min(a: nat, b: nat): nat {
    if a < b then a else b
  }

  /** A list that is served in pages of at most cap items. It may or may not tell its size, or whether there is more. */
  ghost predicate Serves(serve: Server, list: seq<Candidate>, cap: nat) {
    forall r: Request :: ServesPage(serve(r.turn, r.offset), list, cap, r.offset)
  }

  ghost predicate ServesPage(page: Option<Page>, list: seq<Candidate>, cap: nat, offset: nat) {
    page.Some? &&
    page.value.items == (if offset >= |list| then [] else list[offset..offset + Min(Min(LIMIT, cap), |list| - offset)]) &&
    page.value.total in {0, |list|} &&
    (page.value.hasMore ==> offset + |page.value.items| < |list|)
  }

  ghost predicate GoodList(list: seq<Candidate>) {
    DistinctIds(list) && forall i :: 0 <= i < |list| ==> list[i].id != ""
  }

  lemma {:induction false} FreshOfNew(items: seq<Candidate>, seen: set<string>)
    requires GoodList(items) && Ids(items) !! seen
    ensures Fresh(items, seen) == items
  {
    if items != [] {
      var rest := items[1..];
      assert forall i :: 0 <= i < |rest| ==> rest[i] == items[i + 1];
      assert items[0].id in Ids(items);
      forall i | 0 <= i < |rest| ensures rest[i].id in Ids(items) && rest[i].id != items[0].id {
        assert items[i + 1] in items;
      }
      assert Ids(rest) !! seen + {items[0].id};
      FreshOfNew(rest, seen + {items[0].id});
    }
  }

  lemma SliceIsNew(list: seq<Candidate>, a: nat, b: nat)
    requires GoodList(list) && a <= b <= |list|
    ensures Fresh(list[a..b], Ids(list[..a])) == list[a..b]
    ensures Ids(list[..a]) + Ids(list[a..b]) == Ids(list[..b])
  {
    SliceIsGood(list, a, b);
    SliceIsDisjoint(list, a, b);
    FreshOfNew(list[a..b], Ids(list[..a]));
    assert list[..b] == list[..a] + list[a..b];
    IdsConcat(list[..a], list[a..b]);
  }

  lemma IdsConcat(a: seq<Candidate>, b: seq<Candidate>)
    ensures Ids(a + b) == Ids(a) + Ids(b)
  {
  }

  lemma SliceIsGood(list: seq<Candidate>, a: nat, b: nat)
    requires GoodList(list) && a <= b <= |list|
    ensures GoodList(list[a..b])
  {
  }

  lemma SliceIsDisjoint(list: seq<Candidate>, a: nat, b: nat)
    requires GoodList(list) && a <= b <= |list|
    ensures Ids(list[a..b]) !! Ids(list[..a])
  {
    forall x | x in Ids(list[a..b]) ensures x !in Ids(list[..a]) {
      var i :| a <= i < b && list[i].id == x;
    }
  }

  lemma CollectStep(serve: Server, universe: set<string>, turn: nat, offset: nat, seen: set<string>, page: Page,
                    novel: seq<Candidate>)
    requires Within(serve, universe) && serve(turn, offset) == Some(page) && novel == Fresh(page.items, seen)
    ensures Collect(serve, universe, turn, offset, seen) ==
      if Stops(page, novel, offset + |page.items|) then Some(novel)
      else After(novel, Collect(serve, universe, turn + 1, offset + |page.items|, seen + Ids(novel)))
  {
  }

  /** A page that carries on the list from the offset, as far as the end if the loop is to stop there. */
  ghost predicate CarriesOn(page: Page, list: seq<Candidate>, offset: nat) {
    Continues(page, list, offset) && AllNew(page.items, list, offset)
  }

  ghost predicate Continues(page: Page, list: seq<Candidate>, offset: nat) {
    offset + |page.items| <= |list| && page.items == list[offset..offset + |page.items|] &&
    if Stops(page, page.items, offset + |page.items|) then page.items == list[offset..] else page.items != []
  }

  ghost predicate AllNew(items: seq<Candidate>, list: seq<Candidate>, offset: nat) {
    offset + |items| <= |list| && Fresh(items, Ids(list[..offset])) == items &&
    Ids(list[..offset]) + Ids(items) == Ids(list[..offset + |items|])
  }

  ghost predicate AlwaysCarriesOn(serve: Server, list: seq<Candidate>) {
    forall r: Request :: r.offset <= |list| ==>
      serve(r.turn, r.offset).Some? && CarriesOn(serve(r.turn, r.offset).value, list, r.offset)
  }

  lemma WholePagesCarryOn(serve: Server, list: seq<Candidate>, cap: nat)
    requires Serves(serve, list, cap) && GoodList(list) && cap >= LIMIT
    ensures AlwaysCarriesOn(serve, list)
  {
    forall r: Request | r.offset <= |list|
      ensures serve(r.turn, r.offset).Some? && CarriesOn(serve(r.turn, r.offset).value, list, r.offset)
    {
      assert ServesPage(serve(r.turn, r.offset), list, cap, r.offset);
      PageCarriesOn(serve(r.turn, r.offset).value, list, cap, r.offset);
    }
  }

  lemma PageCarriesOn(page: Page, list: seq<Candidate>, cap: nat, offset: nat)
    requires ServesPage(Some(page), list, cap, offset) && GoodList(list) && cap >= LIMIT && offset <= |list|
    ensures CarriesOn(page, list, offset)
  {
    WholePages(page, list, cap, offset);
    NewItems(page.items, list, offset, offset + |page.items|);
  }

  lemma NewItems(items: seq<Candidate>, list: seq<Candidate>, offset: nat, next: nat)
    requires GoodList(list) && offset <= next <= |list| && items == list[offset..next]
    ensures AllNew(items, list, offset)
  {
    SliceIsNew(list, offset, next);
  }

  datatype Turning = Turning(turn: nat, offset: nat, seen: set<string>)

  /** What is collected from a given turn on. */
  type Gathering = Turning -> Option<seq<Candidate>>

  /** A gathering puts the page's new items before what the next turn gathers, or stops with them. */
  ghost predicate Gathers(g: Gathering, serve: Server, x: Turning) {
    serve(x.turn, x.offset).Some? ==>
      var page := serve(x.turn, x.offset).value;
      var novel, next := Fresh(page.items, x.seen), x.offset + |page.items|;
      g(x) == if Stops(page, novel, next) then Some(novel)
              else After(novel, g(Turning(x.turn + 1, next, x.seen + Ids(novel))))
  }

  lemma CollectGathers(serve: Server, universe: set<string>) returns (g: Gathering)
    requires Within(serve, universe)
    ensures forall x :: Gathers(g, serve, x)
    ensures g(Turning(0, 0, {})) == Collect(serve, universe, 0, 0, {})
  {
    g := (x: Turning) => Collect(serve, universe, x.turn, x.offset, x.seen);
    forall x ensures Gathers(g, serve, x) {
      if serve(x.turn, x.offset).Some? {
        var page := serve(x.turn, x.offset).value;
        CollectStep(serve, universe, x.turn, x.offset, x.seen, page, Fresh(page.items, x.seen));
      }
    }
  }

  /** A list served in pages of at least the limit is collected whole and in order. */
  lemma {:induction false} CollectsTheRest(g: Gathering, serve: Server, list: seq<Candidate>, turn: nat, offset: nat)
    requires (forall x :: Gathers(g, serve, x)) && AlwaysCarriesOn(serve, list) && offset <= |list|
    ensures g(Turning(turn, offset, Ids(list[..offset]))) == Some(list[offset..])
    decreases |list| - offset
  {
    var page := PageCarried(serve, list, turn, offset);
    var next := offset + |page.items|;
    if !Stops(page, page.items, next) {
      CollectsTheRest(g, serve, list, turn + 1, next);
    }
    var x := Turning(turn, offset, Ids(list[..offset]));
    assert Gathers(g, serve, x);
    OnePage(list, offset, page, next, g(x), g(Turning(turn + 1, next, Ids(list[..next]))));
  }

  lemma PageCarried(serve: Server, list: seq<Candidate>, turn: nat, offset: nat) returns (page: Page)
    requires AlwaysCarriesOn(serve, list) && offset <= |list|
    ensures serve(turn, offset) == Some(page) && CarriesOn(page, list, offset)
    ensures !Stops(page, page.items, offset + |page.items|) ==> |page.items| > 0
  {
    var r := Request(turn, offset);
    assert CarriesOn(serve(r.turn, r.offset).value, list, r.offset);
    page := serve(turn, offset).value;
  }

  /** One page of a list, the rest of which is collected or not needed. */
  lemma OnePage(list: seq<Candidate>, offset: nat, page: Page, next: nat, whole: Option<seq<Candidate>>,
                rest: Option<seq<Candidate>>)
    requires CarriesOn(page, list, offset) && next == offset + |page.items|
    requires !Stops(page, page.items, next) ==> rest == Some(list[next..])
    requires whole == if Stops(page, page.items, next) then Some(page.items) else After(page.items, rest)
    ensures whole == Some(list[offset..])
  {
    if !Stops(page, page.items, next) {
      MorePages(page, list, offset, rest);
    }
  }

  lemma MorePages(page: Page, list: seq<Candidate>, offset: nat, rest: Option<seq<Candidate>>)
    requires offset + |page.items| <= |list| && page.items == list[offset..offset + |page.items|]
    requires rest == Some(list[offset + |page.items|..])
    ensures After(page.items, rest) == Some(list[offset..])
  {
    assert list[offset..] == page.items + list[offset + |page.items|..];
  }

  lemma WholePages(page: Page, list: seq<Candidate>, cap: nat, offset: nat)
    requires ServesPage(Some(page), list, cap, offset) && offset <= |list| && cap >= LIMIT
    ensures Continues(page, list, offset)
  {
  }

  /** Collecting is complete exactly when the server honours the requested page size or one of its pages holds all. */
  lemma CollectsAllExactly(serve: Server, universe: set<string>, list: seq<Candidate>, cap: nat)
    requires Within(serve, universe) && Serves(serve, list, cap) && GoodList(list)
    ensures Collect(serve, universe, 0, 0, {}) == Some(list) <==> cap >= LIMIT || |list| <= cap
    ensures cap < LIMIT ==> Collect(serve, universe, 0, 0, {}) == Some(list[..Min(cap, |list|)])
  {
    assert list[..0] == [];
    assert Ids(list[..0]) == {};
    if cap >= LIMIT {
      WholePagesCarryOn(serve, list, cap);
      var g := CollectGathers(serve, universe);
      CollectsTheRest(g, serve, list, 0, 0);
      assert list[0..] == list;
    } else {
      var r := Request(0, 0);
      assert ServesPage(serve(r.turn, r.offset), list, cap, r.offset);
      SliceIsNew(list, 0, Min(cap, |list|));
      assert |list| <= cap ==> list[..Min(cap, |list|)] == list;
    }
  }

  /** A server that ignores limit and offset and always sends everything does no harm. */
  lemma IgnoringOffsetIsHarmless(serve: Server, universe: set<string>, list: seq<Candidate>)
    requires Within(serve, universe) && GoodList(list)
    requires forall n, offset :: serve(n, offset).Some? && serve(n, offset).value.items == list
    ensures Collect(serve, universe, 0, 0, {}) == Some(list)
  {
    FreshOfNew(list, {});
    NothingNew(list, Ids(list));
    assert serve(0, 0).value.items == list;
    var page := serve(0, 0).value;
    if !Stops(page, list, |list|) {
      assert serve(1, |list|).value.items == list;
      assert {} + Ids(list) == Ids(list);
      assert list + [] == list;
      assert Collect(serve, universe, 1, |list|, Ids(list)) == Some([]);
    }
  }

  lemma {:induction false} NothingNew(items: seq<Candidate>, seen: set<string>)
    requires Ids(items) <= seen
    ensures Fresh(items, seen) == []
  {
    if items != [] {
      assert items[0].id in Ids(items);
      NothingNew(items[1..], seen);
    }
  }

  lemma OneTurn(serve: Server, universe: set<string>, turn: nat, offset: nat, page: Page, candidates: seq<Candidate>,
                seen: set<string>, longer: seq<Candidate>, seenNow: set<string>, next: nat, more: bool)
    requires Within(serve, universe) && serve(turn, offset) == Some(page) && next == offset + |page.items|
    requires longer == candidates + Fresh(page.items, seen) && seenNow == seen + Ids(Fresh(page.items, seen))
    requires more == !Stops(page, Fresh(page.items, seen), next)
    ensures After(candidates, Collect(serve, universe, turn, offset, seen)) ==
      if more then After(longer, Collect(serve, universe, turn + 1, next, seenNow)) else Some(longer)
  {
    var novel := Fresh(page.items, seen);
    CollectStep(serve, universe, turn, offset, seen, page, novel);
    AfterBoth(candidates, novel, Collect(serve, universe, turn + 1, next, seenNow));
  }

  lemma NoReply(serve: Server, universe: set<string>, turn: nat, offset: nat, seen: set<string>)
    requires Within(serve, universe) && serve(turn, offset).None?
    ensures Collect(serve, universe, turn, offset, seen).None?
  {
  }

  method FetchCandidates(workspace: string, serve: Server, ghost universe: set<string>)
    returns (fetched: Option<seq<Candidate>>)
    requires Within(serve, universe)
    ensures fetched == if workspace == "" then None else Collect(serve, universe, 0, 0, {})
  {
    if workspace == "" {
      return None;
    }
    var candidates, seen := [], {};
    var turn: nat, offset: nat, more := 0, 0, true;
    ghost var goal := Collect(serve, universe, 0, 0, {});
    AfterNothing(goal);
    while more
      invariant more ==> goal == After(candidates, Collect(serve, universe, turn, offset, seen))
      invariant !more ==> goal == Some(candidates)
      decreases more, |universe - seen|
    {
      var reply := serve(turn, offset);
      if reply.None? {
        NoReply(serve, universe, turn, offset, seen);
        return None;
      }
      candidates, seen, offset, more := TakePage(serve, universe, turn, reply.value, candidates, seen, offset);
      turn := turn + 1;
    }
    fetched := Some(candidates);
  }

  /** One turn of the loop: the page's new items are added, and one of the exits may be taken. */
  method TakePage(serve: Server, ghost universe: set<string>, ghost turn: nat, page: Page, candidates: seq<Candidate>,
                  seen: set<string>, offset: nat)
    returns (longer: seq<Candidate>, seenNow: set<string>, next: nat, more: bool)
    requires Within(serve, universe) && serve(turn, offset) == Some(page)
    ensures After(candidates, Collect(serve, universe, turn, offset, seen)) ==
      if more then After(longer, Collect(serve, universe, turn + 1, next, seenNow)) else Some(longer)
    ensures more ==> |universe - seenNow| < |universe - seen|
  {
    var added;
    longer, seenNow, added := AddPage(page.items, candidates, seen);
    next := offset + |page.items|;
    more := GoesOn(page, added, next);
    PageWithin(serve, universe, turn, offset, seen);
    OneTurn(serve, universe, turn, offset, page, candidates, seen, longer, seenNow, next, more);
  }

  /** The exits of the loop, in the order they are tried. */
  method GoesOn(page: Page, added: nat, next: nat) returns (more: bool)
    ensures more == (page.items != [] && added != 0 && |page.items| >= LIMIT &&
                     (page.hasMore || page.total <= 0 || next < page.total))
  {
    if |page.items| == 0 || added == 0 {
      return false;
    }
    if |page.items| < LIMIT {
      return false;
    }
    if page.hasMore {
      return true;
    }
    if page.total > 0 {
      if next >= page.total {
        return false;
      }
      return true;
    }
    more := true;
  }

  method AddPage(items: seq<Candidate>, candidates: seq<Candidate>, seen: set<string>)
    returns (longer: seq<Candidate>, seenNow: set<string>, added: nat)
    ensures longer == candidates + Fresh(items, seen) && added == |Fresh(items, seen)|
    ensures seenNow == seen + Ids(Fresh(items, seen))
  {
    longer, seenNow, added := candidates, seen, 0;
    for i := 0 to |items|
      invariant candidates + Fresh(items, seen) == longer + Fresh(items[i..], seenNow)
      invariant |Fresh(items, seen)| == added + |Fresh(items[i..], seenNow)|
      invariant seen + Ids(Fresh(items, seen)) == seenNow + Ids(Fresh(items[i..], seenNow))
    {
      assert items[i..][1..] == items[i + 1..];
      if items[i].id == "" || items[i].id in seenNow {
        continue;
      }
      seenNow, added, longer := seenNow + {items[i].id}, added + 1, longer + [items[i]];
    }
    assert items[|items|..] == [];
  }

  method ResolveAutopilotId(workspace: string, serve: Server, ghost universe: set<string>, input: string)
    returns (r: Resolution)
    requires Within(serve, universe)
    ensures r == Resolve(if workspace == "" then None else Collect(serve, universe, 0, 0, {}), input)
  {
    var trimmed := Trim(input);
    if trimmed == "" {
      return NoId;
    }
    if IsUuid(trimmed) {
      return Resolved(trimmed, trimmed);
    }
    var prefix := NormalizePrefix(trimmed);
    if prefix.None? {
      return BadPrefix;
    }
    var fetched := FetchCandidates(workspace, serve, universe);
    if fetched.None? {
      return FetchFailed;
    }
    var matches := CollectMatches(fetched.value, prefix.value);
    r := Pick(matches);
  }

  method CollectMatches(candidates: seq<Candidate>, prefix: string) returns (matches: seq<Candidate>)
    ensures matches == Matching(candidates, prefix)
  {
    matches := [];
    for i := 0 to |candidates|
      invariant Matching(candidates, prefix) == matches + Matching(candidates[i..], prefix)
    {
      NextMatch(candidates, prefix, i);
      var found := MatchOne(candidates[i], prefix);
      Assoc(matches, found, Matching(candidates[i + 1..], prefix));
      matches := matches + found;
    }
    assert candidates[|candidates|..] == [];
  }

  method MatchOne(c: Candidate, prefix: string) returns (found: seq<Candidate>)
    ensures found == if Matches(c, prefix) then [c] else []
  {
    if c.id == "" {
      return [];
    }
    found := if prefix <= Compact(c.id) then [c] else [];
  }

  lemma NextMatch(candidates: seq<Candidate>, prefix: string, i: nat)
    requires i < |candidates|
    ensures Matching(candidates[i..], prefix) ==
      (if Matches(candidates[i], prefix) then [candidates[i]] else []) + Matching(candidates[i + 1..], prefix)
  {
    assert candidates[i..][1..] == candidates[i + 1..];
  }
}
