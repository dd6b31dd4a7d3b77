/** Reading `name@version` pins out of a lockfile's text. */
module LockParser {
  import opened Wrappers
  import opened Folds
  import opened Strings

  /** What the parse yields: each name with its versions, in first-seen order. */
  type LockMap = map<string, seq<string>>

  // ---------------------------------------------------------------- the token scanner

  predicate Stops(c: char) { c == '"' || c == '\n' }

  /** First position at or after `i` that ends a run of ordinary characters: a quote, a newline or the end. */
  function StopAt(text: string, i: nat): (j: nat)
    requires i <= |text|
    ensures i <= j <= |text| && (j < |text| ==> Stops(text[j]))
    decreases |text| - i
  {
    if i == |text| || Stops(text[i]) then i else StopAt(text, i + 1)
  }

  /** The closing quote of a token that opens at `i`: bracket, quote, a nonempty run, quote. */
  function TokenEnd(text: string, i: nat): (end: Option<nat>)
    ensures end.Some? ==> i + 2 < end.value < |text|
  {
    if i + 1 < |text| && text[i] == '[' && text[i + 1] == '"' then
      var j := StopAt(text, i + 2);
      if j < |text| && text[j] == '"' && j > i + 2 then Some(j) else None
    else None
  }

  /** A token's opening bracket and closing quote. */
  datatype Match = Match(start: nat, end: nat)

  /** The first token that begins at or after `i`. */
  function NextMatch(text: string, i: nat): (m: Option<Match>)
    ensures m.Some? ==> i <= m.value.start && m.value.start + 2 < m.value.end < |text|
    decreases |text| - i
  {
    if i >= |text| then None
    else
      match TokenEnd(text, i)
      case Some(j) => Some(Match(i, j))
      case None => NextMatch(text, i + 1)
  }

  /** The tokens found from position `i` on, leftmost first, never overlapping. */
  function TokensFrom(text: string, i: nat): seq<string>
    decreases |text| - i
  {
    match NextMatch(text, i)
    case None => []
    case Some(m) => [text[m.start + 2..m.end]] + TokensFrom(text, m.end + 1)
  }

  function Tokens(text: string): seq<string> {
    TokensFrom(text, 0)
  }

  // ---------------------------------------------------------------- pins

  /** The name and version a token pins, if it pins anything. */
  function Pin(token: string): Option<(string, string)> {
    var at := LastIndexOf(token, '@');
    if at <= 0 then None
    else
      var name, version := token[..at], token[at + 1..];
      if name == "" || version == "" then None else Some((name, version))
  }

  /** A token pins exactly the pair it splits into at its last `@`, so scoped names survive. */
  lemma PinIffLastSplit(token: string, name: string, version: string)
    ensures Pin(token) == Some((name, version))
       <==> token == name + "@" + version && name != "" && version != "" && '@' !in version
  {
    var at := LastIndexOf(token, '@');
    TailAvoids(token, '@');
    if at >= 0 {
      assert token == token[..at] + "@" + token[at + 1..];
    }
    if token == name + "@" + version && '@' !in version {
      LastIndexAfter(name, '@', version);
      assert at == |name| && token[..at] == name && token[at + 1..] == version;
    }
  }

  // ---------------------------------------------------------------- the map

  function AddPin(m: LockMap, token: string): LockMap {
    match Pin(token)
    case None => m
    case Some((name, version)) =>
      if name !in m then m[name := [version]]
      else if version !in m[name] then m[name := m[name] + [version]]
      else m
  }

  function Collect(tokens: seq<string>): LockMap {
    Fold(AddPin, map[], tokens)
  }

  /** The loop's body past the scan: the map after one more token. */
  method RecordPin(seen: LockMap, token: string) returns (out: LockMap)
    ensures out == AddPin(seen, token)
  {
    out := seen;
    var pin := Pin(token);
    if pin.Some? {
      var name, version := pin.value.0, pin.value.1;
      if name !in out {
        out := out[name := [version]];
      } else if version !in out[name] {
        out := out[name := out[name] + [version]];
      }
    }
  }

  /** What the matches from position `i` on make of `out`, one token at a time. */
  function ScanFrom<M>(step: (M, string) -> M, text: string, i: nat, out: M): M
    decreases |text| - i
  {
    match NextMatch(text, i)
    case None => out
    case Some(m) => ScanFrom(step, text, m.end + 1, step(out, text[m.start + 2..m.end]))
  }

  lemma {:induction false} ScanFolds<M>(step: (M, string) -> M, text: string, i: nat, out: M)
    ensures ScanFrom(step, text, i, out) == Fold(step, out, TokensFrom(text, i))
    decreases |text| - i
  {
    match NextMatch(text, i) {
      case None =>
      case Some(m) =>
        var token := text[m.start + 2..m.end];
        ScanFolds(step, text, m.end + 1, step(out, token));
        FoldCons(step, out, token, TokensFrom(text, m.end + 1));
    }
  }

  /** The source's loop over matches, updating the map in place. */
  method ParseLockVersions(text: string) returns (out: LockMap)
    ensures out == Collect(Tokens(text))
  {
    out := map[];
    var i := 0;
    ghost var whole := Collect(Tokens(text));
    ScanFolds(AddPin, text, 0, out);
    var next := NextMatch(text, i);
    while next.Some?
      invariant next == NextMatch(text, i)
      invariant ScanFrom(AddPin, text, i, out) == whole
      decreases |text| - i
    {
      var m := next.value;
      out := RecordPin(out, text[m.start + 2..m.end]);
      i := m.end + 1;
      next := NextMatch(text, i);
    }
  }

  // ---------------------------------------------------------------- meaning of the map

  /** All versions the tokens pin for a name, in order, repetitions included. */
  ghost function VersionsOf(tokens: seq<string>, name: string): seq<string> {
    if tokens == [] then []
    else
      var front := VersionsOf(tokens[..|tokens| - 1], name);
      match Pin(tokens[|tokens| - 1])
      case Some((n, v)) => if n == name then front + [v] else front
      case None => front
  }

  /** First occurrences only. */
  ghost function FirstSeen(s: seq<string>): (r: seq<string>)
    ensures forall v :: v in r <==> v in s
    ensures forall i, j | 0 <= i < j < |r| :: r[i] != r[j]
    ensures r == [] <==> s == []
  {
    if s == [] then []
    else
      assert s == s[..|s| - 1] + [s[|s| - 1]];
      var front := FirstSeen(s[..|s| - 1]);
      if s[|s| - 1] in front then front else front + [s[|s| - 1]]
  }

  /** What one more version does to a duplicate-free list. */
  function Note(seen: seq<string>, v: string): seq<string> {
    if v in seen then seen else seen + [v]
  }

  lemma AddPinMeaning(m: LockMap, token: string, name: string)
    ensures Pin(token).Some? && Pin(token).value.0 == name ==>
              name in AddPin(m, token) && AddPin(m, token)[name] == Note(if name in m then m[name] else [], Pin(token).value.1)
    ensures !(Pin(token).Some? && Pin(token).value.0 == name) ==>
              (name in AddPin(m, token) <==> name in m) && (name in m ==> AddPin(m, token)[name] == m[name])
  {
  }

  lemma FirstSeenSnoc(s: seq<string>, v: string)
    ensures FirstSeen(s + [v]) == Note(FirstSeen(s), v)
  {
    assert (s + [v])[..|s|] == s;
  }

  /** Every name pinned, each with its versions without repetition in first-seen order. */
  lemma {:induction false} CollectMeaning(tokens: seq<string>, name: string)
    ensures name in Collect(tokens) <==> VersionsOf(tokens, name) != []
    ensures name in Collect(tokens) ==> Collect(tokens)[name] == FirstSeen(VersionsOf(tokens, name))
  {
    if tokens != [] {
      var front, last := tokens[..|tokens| - 1], tokens[|tokens| - 1];
      CollectMeaning(front, name);
      FoldSnoc(AddPin, map[], front, last);
      assert front + [last] == tokens;
      AddPinMeaning(Collect(front), last, name);
      if Pin(last).Some? && Pin(last).value.0 == name {
        FirstSeenSnoc(VersionsOf(front, name), Pin(last).value.1);
      }
    }
  }

  /** Some token pins this version of this name. */
  ghost predicate Pinned(tokens: seq<string>, name: string, version: string) {
    exists i :: 0 <= i < |tokens| && Pin(tokens[i]) == Some((name, version))
  }

  ghost predicate HasPin(tokens: seq<string>, name: string) { exists v :: Pinned(tokens, name, v) }

  lemma {:induction false} VersionsArePinned(tokens: seq<string>, name: string, version: string)
    ensures version in VersionsOf(tokens, name) <==> Pinned(tokens, name, version)
  {
    if tokens != [] {
      var front, last := tokens[..|tokens| - 1], tokens[|tokens| - 1];
      VersionsArePinned(front, name, version);
      PinnedSnoc(front, last, name, version);
      assert tokens == front + [last];
    }
  }

  lemma PinnedSnoc(front: seq<string>, last: string, name: string, version: string)
    ensures Pinned(front + [last], name, version) <==> Pinned(front, name, version) || Pin(last) == Some((name, version))
  {
    var all := front + [last];
    assert all[|front|] == last;
    assert forall i | 0 <= i < |front| :: all[i] == front[i];
  }

  // ---------------------------------------------------------------- renderings

  /** A token followed by whatever text comes before the next one. */
  datatype Entry = Entry(token: string, gap: string)

  function Quoted(token: string): string { "[\"" + token + "\"" }

  function Render(entries: seq<Entry>): string {
    if entries == [] then "" else Quoted(entries[0].token) + entries[0].gap + Render(entries[1..])
  }

  function TokensOf(entries: seq<Entry>): seq<string> {
    if entries == [] then [] else [entries[0].token] + TokensOf(entries[1..])
  }

  ghost predicate PlainToken(token: string) {
    token != "" && forall i | 0 <= i < |token| :: !Stops(token[i])
  }

  /** A bracket and a quote that are not followed, inside the text itself, by a newline or by an
      immediate second quote: a token begins here, or would run on into whatever follows. */
  predicate OpensToken(text: string) {
    2 <= |text| && text[0] == '[' && text[1] == '"' && (var j := StopAt(text, 2); j == |text| || (text[j] == '"' && j > 2))
  }

  /** Text that forms no token, whichever token comes after it. */
  predicate Inert(gap: string) {
    gap == "" || (!OpensToken(gap) && Inert(gap[1..]))
  }

  /** Text that forms no token of its own; it may end in a bracket and a quote that are never closed. */
  predicate Tokenless(gap: string) {
    gap == "" || (TokenEnd(gap, 0).None? && Tokenless(gap[1..]))
  }

  /** The text before a token must not run on into it; the text after the last one may end anyhow. */
  ghost predicate WellFormed(gap0: string, entries: seq<Entry>)
    decreases |entries|
  {
    if entries == [] then Tokenless(gap0)
    else Inert(gap0) && PlainToken(entries[0].token) && WellFormed(entries[0].gap, entries[1..])
  }

  // ---------------------------------------------------------------- scanning a rendering

  /** `s` stands in the text at `i`. */
  ghost predicate Holds(text: string, i: nat, s: string) {
    i + |s| <= |text| && forall k | 0 <= k < |s| :: text[i + k] == s[k]
  }

  lemma HoldsParts(text: string, i: nat, a: string, b: string)
    requires Holds(text, i, a + b)
    ensures Holds(text, i, a) && Holds(text, i + |a|, b)
  {
    assert forall k | 0 <= k < |a| :: (a + b)[k] == a[k];
    assert forall k | 0 <= k < |b| :: (a + b)[|a| + k] == b[k];
  }

  lemma HoldsAt(text: string, i: nat, s: string, k: nat)
    requires Holds(text, i, s) && k < |s|
    ensures text[i + k] == s[k]
  {
  }

  lemma HoldsSlice(text: string, i: nat, s: string)
    requires Holds(text, i, s)
    ensures text[i..i + |s|] == s
  {
  }

  /** A run that stops inside `s`, or at the end of the text together with `s`, stops there in the text. */
  lemma {:induction false} StopAtHere(text: string, i: nat, s: string, j: nat)
    requires Holds(text, i, s) && j <= |s| && (StopAt(s, j) < |s| || i + |s| == |text|)
    ensures StopAt(text, i + j) == i + StopAt(s, j)
    decreases |s| - j
  {
    if j < |s| && !Stops(s[j]) {
      StopAtHere(text, i, s, j + 1);
    }
  }

  lemma NoTokenOpens(text: string, i: nat, gap: string)
    requires Holds(text, i, gap) && gap != "" && !OpensToken(gap)
    requires i + |gap| < |text| && text[i + |gap|] == '['
    ensures TokenEnd(text, i).None?
  {
    if 2 <= |gap| && gap[0] == '[' && gap[1] == '"' {
      StopAtHere(text, i, gap, 2);
    }
  }

  /** An inert gap before a token is passed over. */
  lemma {:induction false} GapIsSkipped(text: string, i: nat, gap: string, p: nat)
    requires Holds(text, i, gap) && Inert(gap) && p == i + |gap| && p < |text| && text[p] == '['
    ensures NextMatch(text, i) == NextMatch(text, p)
    decreases |gap|
  {
    if gap != "" {
      NoTokenOpens(text, i, gap);
      GapIsSkipped(text, i + 1, gap[1..], p);
    }
  }

  lemma TokenEndInTail(text: string, i: nat, tail: string)
    requires Holds(text, i, tail) && i + |tail| == |text|
    ensures TokenEnd(text, i).None? <==> TokenEnd(tail, 0).None?
  {
    if 2 <= |tail| {
      StopAtHere(text, i, tail, 2);
    }
  }

  /** Exactly the token-free texts have nothing to find. */
  lemma {:induction false} TokenlessIffNoMatch(text: string, i: nat, tail: string)
    requires Holds(text, i, tail) && i + |tail| == |text|
    ensures Tokenless(tail) <==> NextMatch(text, i).None?
    decreases |tail|
  {
    if tail != "" {
      TokenEndInTail(text, i, tail);
      TokenlessIffNoMatch(text, i + 1, tail[1..]);
    }
  }

  lemma {:induction false} StopAtQuote(text: string, i: nat, token: string, j: nat)
    requires PlainToken(token) && Holds(text, i, token) && j <= |token|
    requires i + |token| < |text| && text[i + |token|] == '"'
    ensures StopAt(text, i + j) == i + |token|
    decreases |token| - j
  {
    if j < |token| {
      HoldsAt(text, i, token, j);
      StopAtQuote(text, i, token, j + 1);
    }
  }

  lemma TokenIsFound(text: string, p: nat, token: string, q: nat)
    requires PlainToken(token) && Holds(text, p, Quoted(token)) && q == p + 2 + |token|
    ensures q < |text| && NextMatch(text, p) == Some(Match(p, q)) && text[p + 2..q] == token
  {
    assert Quoted(token) == "[\"" + (token + "\"");
    HoldsParts(text, p, "[\"", token + "\"");
    HoldsParts(text, p + 2, token, "\"");
    HoldsAt(text, p, "[\"", 0);
    HoldsAt(text, p, "[\"", 1);
    HoldsAt(text, q, "\"", 0);
    StopAtQuote(text, p + 2, token, 0);
    HoldsSlice(text, p + 2, token);
  }

  lemma TokensAt(text: string, i: nat, m: Match, token: string)
    requires NextMatch(text, i) == Some(m) && text[m.start + 2..m.end] == token
    ensures TokensFrom(text, i) == [token] + TokensFrom(text, m.end + 1)
  {
  }

  /** A run that reaches the end of a gap goes on into the token after it, up to that token's first quote. */
  lemma {:induction false} RunsOn(text: string, i: nat, gap: string, j: nat, p: nat)
    requires Holds(text, i, gap) && j <= |gap| && StopAt(gap, j) == |gap|
    requires p == i + |gap| && p + 1 < |text| && text[p] == '[' && text[p + 1] == '"'
    ensures StopAt(text, i + j) == p + 1
    decreases |gap| - j
  {
    if j < |gap| {
      RunsOn(text, i, gap, j + 1, p);
    }
  }

  lemma TokenOpensEarly(text: string, i: nat, gap: string, p: nat)
    requires Holds(text, i, gap) && OpensToken(gap)
    requires p == i + |gap| && p + 1 < |text| && text[p] == '[' && text[p + 1] == '"'
    ensures TokenEnd(text, i).Some?
  {
    if StopAt(gap, 2) == |gap| {
      RunsOn(text, i, gap, 2, p);
    } else {
      StopAtHere(text, i, gap, 2);
    }
  }

  /** Any other gap before a token forms a match of its own, or takes the token's bracket into one. */
  lemma {:induction false} GapIsNotSkipped(text: string, i: nat, gap: string, p: nat)
    requires Holds(text, i, gap) && !Inert(gap)
    requires p == i + |gap| && p + 1 < |text| && text[p] == '[' && text[p + 1] == '"'
    ensures NextMatch(text, i).Some? && NextMatch(text, i).value.start < p
    decreases |gap|
  {
    if OpensToken(gap) {
      TokenOpensEarly(text, i, gap, p);
    } else {
      NoTokenOpens(text, i, gap);
      GapIsNotSkipped(text, i + 1, gap[1..], p);
    }
  }

  /** The text ends in a well-formed rendering that begins at `i`. */
  ghost predicate Renders(text: string, i: nat, gap0: string, entries: seq<Entry>) {
    WellFormed(gap0, entries) && Holds(text, i, gap0 + Render(entries)) && i + |gap0| + |Render(entries)| == |text|
  }

  lemma TokenAfterGap(text: string, i: nat, gap: string, p: nat, token: string, q: nat, after: string)
    requires Inert(gap) && PlainToken(token) && Holds(text, i, gap + (Quoted(token) + after))
    requires p == i + |gap| && q == p + 2 + |token|
    ensures q < |text| && NextMatch(text, i) == Some(Match(p, q)) && text[p + 2..q] == token && Holds(text, q + 1, after)
  {
    HoldsParts(text, i, gap, Quoted(token) + after);
    HoldsParts(text, p, Quoted(token), after);
    HoldsAt(text, p, Quoted(token), 0);
    GapIsSkipped(text, i, gap, p);
    TokenIsFound(text, p, token, q);
  }

  lemma TokenAfterOtherGap(text: string, gap: string, p: nat, token: string, after: string)
    requires !Inert(gap) && Holds(text, 0, gap + (Quoted(token) + after)) && p == |gap|
    ensures NextMatch(text, 0).Some? && NextMatch(text, 0).value.start < p
  {
    HoldsParts(text, 0, gap, Quoted(token) + after);
    HoldsParts(text, p, Quoted(token), after);
    HoldsAt(text, p, Quoted(token), 0);
    HoldsAt(text, p, Quoted(token), 1);
    GapIsNotSkipped(text, 0, gap, p);
  }

  /** Exactly the inert gaps are passed over, whichever token comes after them and whatever after that. */
  lemma InertIffPassedOver(text: string, gap: string, token: string, after: string, p: nat, q: nat)
    requires PlainToken(token) && text == gap + (Quoted(token) + after) && p == |gap| && q == p + 2 + |token|
    ensures Inert(gap) <==> NextMatch(text, 0) == Some(Match(p, q))
  {
    if Inert(gap) {
      TokenAfterGap(text, 0, gap, p, token, q, after);
    } else {
      TokenAfterOtherGap(text, gap, p, token, after);
    }
  }

  lemma FirstTokenIsFound(text: string, i: nat, gap0: string, entries: seq<Entry>) returns (m: Match)
    requires entries != [] && Renders(text, i, gap0, entries)
    ensures NextMatch(text, i) == Some(m) && m.start + 2 < m.end < |text| && text[m.start + 2..m.end] == entries[0].token
    ensures Renders(text, m.end + 1, entries[0].gap, entries[1..])
  {
    var p := i + |gap0|;
    var q := p + 2 + |entries[0].token|;
    RenderSplits(entries);
    TokenAfterGap(text, i, gap0, p, entries[0].token, q, entries[0].gap + Render(entries[1..]));
    m := Match(p, q);
  }

  lemma {:induction false} ScanReadsFrom(text: string, i: nat, gap0: string, entries: seq<Entry>)
    requires Renders(text, i, gap0, entries)
    ensures TokensFrom(text, i) == TokensOf(entries)
    decreases |entries|
  {
    if entries == [] {
      HoldsParts(text, i, gap0, "");
      TokenlessIffNoMatch(text, i, gap0);
    } else {
      var e, rest := entries[0], entries[1..];
      var m := FirstTokenIsFound(text, i, gap0, entries);
      ScanReadsFrom(text, m.end + 1, e.gap, rest);
      TokensAt(text, i, m, e.token);
      TokensOfCons(entries, e.token, TokensOf(rest));
    }
  }

  lemma TokensOfCons(entries: seq<Entry>, token: string, rest: seq<string>)
    requires entries != [] && entries[0].token == token && TokensOf(entries[1..]) == rest
    ensures TokensOf(entries) == [token] + rest
  {
  }

  /** Scanning a rendering gives back its tokens, whatever inert text lies between them. */
  lemma ScanReadsRendering(gap0: string, entries: seq<Entry>)
    requires WellFormed(gap0, entries)
    ensures Tokens(gap0 + Render(entries)) == TokensOf(entries)
  {
    ScanReadsFrom(gap0 + Render(entries), 0, gap0, entries);
  }

  lemma RenderSplits(entries: seq<Entry>)
    requires entries != []
    ensures Render(entries) == Quoted(entries[0].token) + (entries[0].gap + Render(entries[1..]))
  {
  }

  /** Round trip: parsing any rendering gives exactly the names it pins, each with its versions without
      repetition in first-seen order. */
  lemma LockRoundTrip(gap0: string, entries: seq<Entry>, name: string)
    requires WellFormed(gap0, entries)
    ensures var m := Collect(Tokens(gap0 + Render(entries)));
            && (name in m <==> HasPin(TokensOf(entries), name))
            && (name in m ==> m[name] == FirstSeen(VersionsOf(TokensOf(entries), name)))
            && (name in m ==> m[name] != [] && forall v :: v in m[name] <==> Pinned(TokensOf(entries), name, v))
  {
    ScanReadsRendering(gap0, entries);
    var tokens := TokensOf(entries);
    CollectMeaning(tokens, name);
    forall v
      ensures v in VersionsOf(tokens, name) <==> Pinned(tokens, name, v)
    {
      VersionsArePinned(tokens, name, v);
    }
    if VersionsOf(tokens, name) != [] {
      assert VersionsOf(tokens, name)[0] in VersionsOf(tokens, name);
    }
  }
}
