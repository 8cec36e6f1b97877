/** The regular expressions the reader searches with, as a closed set of shapes, each with a
    hand-written matcher. A declarative relation (`Accepts`) says which ways the backtracking
    regex engine can match at a position; the matcher is proved to find a match exactly when
    one exists and to produce the same group whichever way the engine would have taken. */
module Patterns {
  import opened PyText

  datatype Option<T> = None | Some(value: T)

  /** A captured group: the positions `start..end` of the searched string. */
  datatype Span = Span(start: nat, end: nat)

  /** A successful search: where the match starts and what its group captured. */
  datatype Match = Match(start: nat, group: Span)

  /** The pattern shapes. Every one is searched with `re.IGNORECASE`.
      - `Quoted`: `"([^"]*)"`, whose group is the quoted text (`is_dialogue` searches the
        same expression without the group);
      - `QuoteThenName(true, v)`: `"[^"]*,"\s*(\w+)\s+v`;
      - `QuoteThenName(false, v)`: `"[^"]*"\s*(\w+)\s+v`;
      - `NameThenVerb(v)`: `(\w+)\s+v,?\s*"`. */
  datatype Pattern =
    | Quoted
    | QuoteThenName(comma: bool, verb: string)
    | NameThenVerb(verb: string)

  /** A reporting verb is written in lower-case ASCII letters. */
  predicate IsVerb(verb: string) {
    |verb| > 0 && forall k :: 0 <= k < |verb| ==> 'a' <= verb[k] <= 'z'
  }

  /** A pattern that captures a speaker's name. */
  predicate IsSpeakerPattern(p: Pattern) {
    !p.Quoted? && IsVerb(p.verb)
  }

  /** The reporting verb `verb` occurs at position `v` of `s`, ignoring case. */
  predicate VerbAt(s: string, v: nat, verb: string) {
    v + |verb| <= |s| && forall k :: 0 <= k < |verb| ==> CaseFold(s[v + k]) == CaseFold(verb[k])
  }

  // --------------------------------------------------------- declarative meaning

  /** The positions one run of the regex engine passes through: `close` is the closing
      quote, `nameStart..nameEnd` the `(\w+)` group, `verbAt` where the verb starts, `quote`
      the final `"` of `NameThenVerb`, and `comma` whether its `,?` took a comma. A shape
      leaves the fields it has no use for unconstrained. */
  datatype Trace = Trace(close: nat, nameStart: nat, nameEnd: nat, verbAt: nat, quote: nat, comma: bool)

  /** `\s*(\w+)\s+verb` matches from `from` on along `t`. */
  ghost predicate NameVerbAlong(s: string, from: nat, t: Trace, verb: string) {
    from <= t.nameStart < t.nameEnd < t.verbAt <= |s|
    && AllIn(s, from, t.nameStart, Space)
    && AllIn(s, t.nameStart, t.nameEnd, Word)
    && AllIn(s, t.nameEnd, t.verbAt, Space)
    && VerbAt(s, t.verbAt, verb)
  }

  /** `"[^"]*"`, or `"[^"]*,"` when `comma`, runs from the quote at `i` to the quote at
      `close`. */
  ghost predicate QuotedPart(s: string, i: nat, close: nat, comma: bool) {
    var bodyEnd := if comma then close - 1 else close;
    i < |s| && s[i] == '"' && i + 1 <= bodyEnd <= close < |s|
    && AllIn(s, i + 1, bodyEnd, NonQuote)
    && (comma ==> s[close - 1] == ',') && s[close] == '"'
  }

  /** Pattern `p` matches `s` from position `i` on along `t`: one of the ways a
      backtracking engine may succeed there. */
  ghost predicate Accepts(s: string, p: Pattern, i: nat, t: Trace) {
    match p
    case Quoted =>
      QuotedPart(s, i, t.close, false)
    case QuoteThenName(comma, verb) =>
      QuotedPart(s, i, t.close, comma) && NameVerbAlong(s, t.close + 1, t, verb)
    case NameThenVerb(verb) =>
      var after := t.verbAt + |verb|;
      var commaEnd := if t.comma then after + 1 else after;
      t.nameStart == i && NameVerbAlong(s, i, t, verb)
      && (t.comma ==> after < |s| && s[after] == ',')
      && commaEnd <= t.quote < |s| && AllIn(s, commaEnd, t.quote, Space) && s[t.quote] == '"'
  }

  /** The group that a run along `t` captures. */
  function Capture(p: Pattern, i: nat, t: Trace): Span {
    if p.Quoted? then Span(i + 1, t.close) else Span(t.nameStart, t.nameEnd)
  }

  // ------------------------------------------------------------------ matching

  /** What `(\w+)\s+verb` found at `nameStart`: the group and the position after the verb. */
  datatype Hit = Hit(name: Span, after: nat)

  /** `name` is a non-empty run of word characters, followed by whitespace and then `verb`. */
  predicate NameBeforeVerb(s: string, name: Span, verb: string) {
    name.start < name.end < |s| && AllIn(s, name.start, name.end, Word) && IsSpace(s[name.end])
    && VerbAt(s, RunEnd(s, name.end, Space), verb)
  }

  /** Matches `(\w+)\s+verb` with the group starting exactly at `nameStart`. */
  function NameVerbAt(s: string, nameStart: nat, verb: string): (r: Option<Hit>)
    requires nameStart <= |s|
    ensures r.Some? ==> r.value.name.start == nameStart < r.value.name.end < r.value.after <= |s|
    ensures r.Some? ==> NameBeforeVerb(s, r.value.name, verb)
  {
    var nameEnd := RunEnd(s, nameStart, Word);
    var verbAt := RunEnd(s, nameEnd, Space);
    if nameStart < nameEnd < verbAt && VerbAt(s, verbAt, verb)
    then Some(Hit(Span(nameStart, nameEnd), verbAt + |verb|))
    else None
  }

  /** The closing quote of `"[^"]*"`, or of `"[^"]*,"` when `comma`, opened at `i`:
      `[^"]*` cannot cross a quote, so it runs to the next one. */
  function QuoteClose(s: string, i: nat, comma: bool): (r: Option<nat>)
    requires i <= |s|
    ensures r.Some? ==> i < r.value < |s|
  {
    if i < |s| && s[i] == '"' then
      var close := RunEnd(s, i + 1, NonQuote);
      if close < |s| && (!comma || (i + 1 < close && s[close - 1] == ',')) then Some(close) else None
    else None
  }

  /** `"[^"]*"` at `i`: the group is what lies between the quote at `i` and the next one. */
  function QuotedAt(s: string, i: nat): (r: Option<Span>)
    requires i <= |s|
    ensures r.Some? ==> i < r.value.start <= r.value.end < |s|
  {
    match QuoteClose(s, i, false)
    case Some(close) => Some(Span(i + 1, close))
    case None => None
  }

  /** `"[^"]*"` fails only at a position that is not a quote or that no later quote
      follows: a quote with another quote after it always opens a match. */
  lemma QuotedAtFailsBeforeQuote(s: string, k: nat, j: nat)
    requires k < j < |s| && s[j] == '"' && QuotedAt(s, k).None?
    ensures s[k] != '"'
  {
    var close := RunEnd(s, k + 1, NonQuote);
    assert close <= j;
  }

  /** `\s*(\w+)\s+verb` after the closing quote at `close`. */
  function NameAfterQuote(s: string, close: nat, verb: string): (r: Option<Span>)
    requires close < |s|
    ensures r.Some? ==> r.value.start <= r.value.end <= |s| && NameBeforeVerb(s, r.value, verb)
  {
    match NameVerbAt(s, RunEnd(s, close + 1, Space), verb)
    case Some(h) => Some(h.name)
    case None => None
  }

  /** `"[^"]*,?"\s*(\w+)\s+verb` at `i`, the comma present when `comma`. */
  function QuoteThenNameAt(s: string, i: nat, comma: bool, verb: string): (r: Option<Span>)
    requires i <= |s|
    ensures r.Some? ==> r.value.start <= r.value.end <= |s| && NameBeforeVerb(s, r.value, verb)
  {
    match QuoteClose(s, i, comma)
    case None => None
    case Some(close) => NameAfterQuote(s, close, verb)
  }

  /** `(\w+)\s+verb,?\s*"` at `i`. */
  function NameThenVerbAt(s: string, i: nat, verb: string): (r: Option<Span>)
    requires i <= |s|
    ensures r.Some? ==> r.value.start <= r.value.end <= |s| && NameBeforeVerb(s, r.value, verb)
  {
    match NameVerbAt(s, i, verb)
    case None => None
    case Some(h) =>
      var commaEnd := if h.after < |s| && s[h.after] == ',' then h.after + 1 else h.after;
      var q := RunEnd(s, commaEnd, Space);
      if q < |s| && s[q] == '"' then Some(h.name) else None
  }

  /** Tries pattern `p` at position `i` of `s`, the way `re.search` does at one start
      position; the result is the group of the match, if there is one. */
  function MatchAt(s: string, i: nat, p: Pattern): (r: Option<Span>)
    requires i <= |s|
    ensures r.Some? ==> r.value.start <= r.value.end <= |s|
    ensures r.Some? && !p.Quoted? ==> NameBeforeVerb(s, r.value, p.verb)
  {
    match p
    case Quoted => QuotedAt(s, i)
    case QuoteThenName(comma, verb) => QuoteThenNameAt(s, i, comma, verb)
    case NameThenVerb(verb) => NameThenVerbAt(s, i, verb)
  }

  /** A character that matches a verb letter is not whitespace. */
  lemma VerbLetterNotSpace(c: char, v: char)
    requires 'a' <= v <= 'z' && CaseFold(c) == CaseFold(v)
    ensures !IsSpace(c)
  {
  }

  /** Every match the matcher reports is one the regex can make. */
  lemma MatchAtSound(s: string, i: nat, p: Pattern) returns (t: Trace)
    requires i <= |s| && MatchAt(s, i, p).Some?
    ensures Accepts(s, p, i, t) && Capture(p, i, t) == MatchAt(s, i, p).value
  {
    match p
    case Quoted =>
      var close := QuoteClose(s, i, false).value;
      QuoteCloseSound(s, i, false);
      t := Trace(close, 0, 0, 0, 0, false);
    case QuoteThenName(comma, verb) =>
      t := QuoteThenNameSound(s, i, comma, verb);
    case NameThenVerb(verb) =>
      t := NameThenVerbSound(s, i, verb);
  }

  /** The closing quote the matcher finds is one the regex can reach. */
  lemma QuoteCloseSound(s: string, i: nat, comma: bool)
    requires i <= |s| && QuoteClose(s, i, comma).Some?
    ensures QuotedPart(s, i, QuoteClose(s, i, comma).value, comma)
  {
    var close := QuoteClose(s, i, comma).value;
    if comma {
      assert AllIn(s, i + 1, close - 1, NonQuote);
    }
  }

  lemma QuoteThenNameSound(s: string, i: nat, comma: bool, verb: string) returns (t: Trace)
    requires i <= |s| && QuoteThenNameAt(s, i, comma, verb).Some?
    ensures Accepts(s, QuoteThenName(comma, verb), i, t)
    ensures Capture(QuoteThenName(comma, verb), i, t) == QuoteThenNameAt(s, i, comma, verb).value
  {
    var close := QuoteClose(s, i, comma).value;
    assert QuoteThenNameAt(s, i, comma, verb) == NameAfterQuote(s, close, verb);
    QuoteCloseSound(s, i, comma);
    t := NameAfterQuoteSound(s, close, verb);
  }

  /** A hit of `NameAfterQuote` is a run of `\s*(\w+)\s+verb` after the quote at `close`. */
  lemma NameAfterQuoteSound(s: string, close: nat, verb: string) returns (t: Trace)
    requires close < |s| && NameAfterQuote(s, close, verb).Some?
    ensures t.close == close && NameVerbAlong(s, close + 1, t, verb)
    ensures Span(t.nameStart, t.nameEnd) == NameAfterQuote(s, close, verb).value
  {
    var nameStart := RunEnd(s, close + 1, Space);
    var nameEnd := RunEnd(s, nameStart, Word);
    t := Trace(close, nameStart, nameEnd, RunEnd(s, nameEnd, Space), 0, false);
  }

  lemma NameThenVerbSound(s: string, i: nat, verb: string) returns (t: Trace)
    requires i <= |s| && NameThenVerbAt(s, i, verb).Some?
    ensures Accepts(s, NameThenVerb(verb), i, t)
    ensures Capture(NameThenVerb(verb), i, t) == NameThenVerbAt(s, i, verb).value
  {
    var h := NameVerbAt(s, i, verb).value;
    var nameEnd := RunEnd(s, i, Word);
    var verbAt := RunEnd(s, nameEnd, Space);
    var comma := h.after < |s| && s[h.after] == ',';
    var commaEnd := if comma then h.after + 1 else h.after;
    t := Trace(0, i, nameEnd, verbAt, RunEnd(s, commaEnd, Space), comma);
  }

  /** `(\w+)\s+verb` along `t` is found by `NameVerbAt`, with the same group. */
  lemma NameVerbComplete(s: string, from: nat, t: Trace, verb: string)
    requires IsVerb(verb) && NameVerbAlong(s, from, t, verb)
    ensures t.nameStart <= |s|
    ensures NameVerbAt(s, t.nameStart, verb) == Some(Hit(Span(t.nameStart, t.nameEnd), t.verbAt + |verb|))
  {
    assert IsSpace(s[t.nameEnd]);
    RunEndUnique(s, t.nameStart, t.nameEnd, Word);
    VerbLetterNotSpace(s[t.verbAt], verb[0]);
    RunEndUnique(s, t.nameEnd, t.verbAt, Space);
  }

  /** Whenever the regex can match at `i`, the matcher finds a match there, and its group
      is the one of that run: the group does not depend on how the engine backtracked. */
  lemma MatchAtComplete(s: string, i: nat, p: Pattern, t: Trace)
    requires i <= |s| && (p.Quoted? || IsSpeakerPattern(p)) && Accepts(s, p, i, t)
    ensures MatchAt(s, i, p) == Some(Capture(p, i, t))
  {
    match p
    case Quoted =>
      QuoteCloseComplete(s, i, t.close, false);
    case QuoteThenName(comma, verb) =>
      QuoteThenNameComplete(s, i, comma, verb, t);
    case NameThenVerb(verb) =>
      NameThenVerbComplete(s, i, verb, t);
  }

  /** Every closing quote the regex can reach is the one the matcher finds. */
  lemma QuoteCloseComplete(s: string, i: nat, close: nat, comma: bool)
    requires QuotedPart(s, i, close, comma)
    ensures QuoteClose(s, i, comma) == Some(close)
  {
    RunEndUnique(s, i + 1, close, NonQuote);
  }

  lemma QuoteThenNameComplete(s: string, i: nat, comma: bool, verb: string, t: Trace)
    requires i <= |s| && IsVerb(verb) && Accepts(s, QuoteThenName(comma, verb), i, t)
    ensures QuoteThenNameAt(s, i, comma, verb) == Some(Span(t.nameStart, t.nameEnd))
  {
    QuoteCloseComplete(s, i, t.close, comma);
    NameAfterQuoteComplete(s, t, verb);
  }

  /** The `\s*(\w+)\s+verb` after the closing quote along `t` is found by the matcher. */
  lemma NameAfterQuoteComplete(s: string, t: Trace, verb: string)
    requires t.close < |s| && IsVerb(verb) && NameVerbAlong(s, t.close + 1, t, verb)
    ensures RunEnd(s, t.close + 1, Space) == t.nameStart
    ensures NameVerbAt(s, t.nameStart, verb) == Some(Hit(Span(t.nameStart, t.nameEnd), t.verbAt + |verb|))
  {
    NameVerbComplete(s, t.close + 1, t, verb);
    assert IsWordChar(s[t.nameStart]);
    RunEndUnique(s, t.close + 1, t.nameStart, Space);
  }

  lemma NameThenVerbComplete(s: string, i: nat, verb: string, t: Trace)
    requires i <= |s| && IsVerb(verb) && Accepts(s, NameThenVerb(verb), i, t)
    ensures NameThenVerbAt(s, i, verb) == Some(Span(t.nameStart, t.nameEnd))
  {
    NameVerbComplete(s, i, t, verb);
    var after := t.verbAt + |verb|;
    var commaEnd := if t.comma then after + 1 else after;
    assert !t.comma ==> s[after] != ',' by {
      if !t.comma && t.quote != after {
        assert IsSpace(s[after]);
      }
    }
    RunEndUnique(s, commaEnd, t.quote, Space);
  }

  // -------------------------------------------------------------------- search

  /** `p` matches at no position from `from` up to, not including, `to`. */
  predicate NoMatchIn(s: string, p: Pattern, from: nat, to: nat) {
    forall i :: from <= i < to && i <= |s| ==> MatchAt(s, i, p).None?
  }

  /** `re.search(p, s)` when `from` is 0: the leftmost start, at or after `from`, at which
      `p` matches, with that match's group. */
  function Search(s: string, p: Pattern, from: nat): (r: Option<Match>)
    requires from <= |s|
    ensures r.Some? ==> from <= r.value.start <= |s| && MatchAt(s, r.value.start, p) == Some(r.value.group)
    ensures NoMatchIn(s, p, from, if r.Some? then r.value.start else |s| + 1)
    decreases |s| - from
  {
    match MatchAt(s, from, p)
    case Some(g) => Some(Match(from, g))
    case None => if from == |s| then None else Search(s, p, from + 1)
  }
}
