/** The speaker attributor: `is_dialogue`, `extract_dialogue_text` and `extract_speaker`
    of `NovelReader`. */
module Attribution {
  import opened PyText
  import opened Patterns

  /** The number of `"` characters in `text`. */
  function QuoteCount(text: string): nat {
    multiset(text)['"']
  }

  /** The text of a group within `s`. */
  function Group(s: string, g: Span): string
    requires g.start <= g.end <= |s|
  {
    s[g.start..g.end]
  }

  // -------------------------------------------------------------- is_dialogue

  /** `is_dialogue`: the search for `"[^"]*"` succeeds. */
  predicate IsDialogue(text: string) {
    Search(text, Quoted, 0).Some?
  }

  /** A stretch without quotes adds no quotes to the count. */
  lemma NoQuotesIn(s: string, i: nat, j: nat)
    requires i <= j <= |s| && AllIn(s, i, j, NonQuote)
    ensures multiset(s[i..j])['"'] == 0
  {
    assert '"' !in s[i..j] by {
      forall k | 0 <= k < j - i ensures s[i..j][k] != '"' {
        assert s[i..j][k] == s[i + k];
      }
    }
  }

  /** Two quotes at different positions make a count of at least two. */
  lemma TwoQuotes(s: string, i: nat, j: nat)
    requires i < j < |s| && s[i] == '"' && s[j] == '"'
    ensures QuoteCount(s) >= 2
  {
    assert s == s[..i + 1] + s[i + 1..];
    assert s[..i + 1][i] == '"';
    assert s[i + 1..][j - i - 1] == '"';
    assert multiset(s) == multiset(s[..i + 1]) + multiset(s[i + 1..]);
  }

  /** A paragraph is dialogue exactly when it holds at least two `"` characters. */
  lemma IsDialogueIffTwoQuotes(text: string)
    ensures IsDialogue(text) <==> QuoteCount(text) >= 2
  {
    if IsDialogue(text) {
      var m := Search(text, Quoted, 0).value;
      TwoQuotes(text, m.start, m.group.end);
    } else {
      var q1 := RunEnd(text, 0, NonQuote);
      if q1 == |text| {
        NoQuotesIn(text, 0, |text|);
        assert text[0..|text|] == text;
      } else {
        var q2 := RunEnd(text, q1 + 1, NonQuote);
        assert MatchAt(text, q1, Quoted).None?;
        assert q2 == |text|;
        NoQuotesIn(text, 0, q1);
        NoQuotesIn(text, q1 + 1, |text|);
        assert text == text[0..q1] + [text[q1]] + text[q1 + 1..|text|];
        assert multiset(text) == multiset(text[0..q1]) + multiset([text[q1]]) + multiset(text[q1 + 1..|text|]);
      }
    }
  }

  // ---------------------------------------------------- extract_dialogue_text

  /** `extract_dialogue_text`: the group of the search for `"([^"]*)"`, or the whole
      paragraph when the search fails. Without two quotes the paragraph comes back as it
      is; with two, the result holds no quote. */
  function ExtractDialogueText(text: string): (r: string)
    ensures QuoteCount(text) < 2 ==> r == text
    ensures QuoteCount(text) >= 2 ==> '"' !in r
  {
    IsDialogueIffTwoQuotes(text);
    match Search(text, Quoted, 0)
    case Some(m) =>
      assert forall k :: 0 <= k < m.group.end - m.group.start ==> Group(text, m.group)[k] == text[m.group.start + k];
      Group(text, m.group)
    case None => text
  }

  /** With at least two quotes, the dialogue text is what lies strictly between the first
      and the second `"` of the paragraph. */
  lemma DialogueTextBetweenFirstQuotes(text: string) returns (pre: string, post: string)
    requires QuoteCount(text) >= 2
    ensures text == pre + "\"" + ExtractDialogueText(text) + "\"" + post
    ensures '"' !in pre && '"' !in ExtractDialogueText(text)
  {
    IsDialogueIffTwoQuotes(text);
    var m := Search(text, Quoted, 0).value;
    var i, close := m.start, m.group.end;
    pre, post := text[..i], text[close + 1..];
    QuoteCloseSound(text, i, false);
    forall k | 0 <= k < i ensures text[k] != '"' {
      assert MatchAt(text, k, Quoted).None?;
      QuotedAtFailsBeforeQuote(text, k, i);
    }
    assert forall k :: 0 <= k < |pre| ==> pre[k] == text[k];
    assert text == text[..i] + [text[i]] + text[i + 1..close] + [text[close]] + text[close + 1..];
  }

  // ----------------------------------------------------------- extract_speaker

  /** The speaker patterns of `extract_speaker`, in the order they are tried. */
  const SpeakerPatterns: seq<Pattern> := [
    QuoteThenName(true, "said"),      // "Hello," John said
    NameThenVerb("said"),             // John said, "Hello"
    QuoteThenName(false, "replied"),  // "Hello" John replied
    NameThenVerb("replied"),          // John replied, "Hello"
    QuoteThenName(true, "asked"),     // "Hello," John asked
    NameThenVerb("asked"),            // John asked, "Hello"
    QuoteThenName(true, "whispered"), // "Hello," John whispered
    NameThenVerb("whispered")         // John whispered, "Hello"
  ]

  /** The label when no pattern matches. */
  const Unknown: string := "unknown"

  lemma SpeakerPatternsWellFormed()
    ensures forall k :: 0 <= k < |SpeakerPatterns| ==> IsSpeakerPattern(SpeakerPatterns[k])
  {
    assert IsVerb("said") && IsVerb("replied") && IsVerb("asked") && IsVerb("whispered");
  }

  /** The lower-cased group of a speaker pattern's match is a non-empty string of
      lower-case word characters. */
  lemma LoweredNameIsWord(s: string, name: Span, verb: string)
    requires NameBeforeVerb(s, name, verb)
    ensures |Lower(Group(s, name))| > 0
    ensures forall k :: 0 <= k < |Lower(Group(s, name))| ==> IsLowerWordChar(Lower(Group(s, name))[k])
  {
    var g := Group(s, name);
    forall k | 0 <= k < |g| ensures IsWordChar(g[k]) {
      assert g[k] == s[name.start + k];
      assert InClass(s[name.start + k], Word);
    }
  }

  /** The scan of `extract_speaker` over `patterns`: the lower-cased group of the first
      pattern that matches, or `unknown`. Either way a non-empty string of lower-case word
      characters. */
  function SpeakerFrom(text: string, patterns: seq<Pattern>): (r: string)
    requires forall k :: 0 <= k < |patterns| ==> IsSpeakerPattern(patterns[k])
    ensures |r| > 0 && forall k :: 0 <= k < |r| ==> IsLowerWordChar(r[k])
  {
    if patterns == [] then Unknown
    else
      match Search(text, patterns[0], 0)
      case Some(m) =>
        assert IsSpeakerPattern(patterns[0]);
        LoweredNameIsWord(text, m.group, patterns[0].verb);
        Lower(Group(text, m.group))
      case None => SpeakerFrom(text, patterns[1..])
  }

  /** `extract_speaker`. */
  function ExtractSpeaker(text: string): (r: string)
    ensures |r| > 0 && forall k :: 0 <= k < |r| ==> IsLowerWordChar(r[k])
  {
    SpeakerPatternsWellFormed();
    SpeakerFrom(text, SpeakerPatterns)
  }

  /** Pattern order decides: the label comes from pattern `k` when `k` is the first
      pattern whose search succeeds, whatever later patterns would have found. */
  lemma {:induction false} FirstMatchDecides(text: string, patterns: seq<Pattern>, k: nat)
    requires forall j :: 0 <= j < |patterns| ==> IsSpeakerPattern(patterns[j])
    requires k < |patterns| && Search(text, patterns[k], 0).Some?
    requires forall j :: 0 <= j < k ==> Search(text, patterns[j], 0).None?
    ensures SpeakerFrom(text, patterns) == Lower(Group(text, Search(text, patterns[k], 0).value.group))
  {
    if k > 0 {
      assert Search(text, patterns[0], 0).None?;
      assert forall j :: 0 <= j < k - 1 ==> patterns[1..][j] == patterns[j + 1];
      FirstMatchDecides(text, patterns[1..], k - 1);
    }
  }

  /** When no pattern's search succeeds the label is `unknown`. */
  lemma {:induction false} NoMatchIsUnknown(text: string, patterns: seq<Pattern>)
    requires forall j :: 0 <= j < |patterns| ==> IsSpeakerPattern(patterns[j])
    requires forall j :: 0 <= j < |patterns| ==> Search(text, patterns[j], 0).None?
    ensures SpeakerFrom(text, patterns) == Unknown
  {
    if patterns != [] {
      assert Search(text, patterns[0], 0).None?;
      assert forall j :: 0 <= j < |patterns| - 1 ==> patterns[1..][j] == patterns[j + 1];
      NoMatchIsUnknown(text, patterns[1..]);
    }
  }

  /** The group of the leftmost match of a speaker pattern is a whole word: it does not
      continue a word that starts before it. */
  lemma LeftmostNameIsWholeWord(s: string, p: Pattern)
    requires IsSpeakerPattern(p) && Search(s, p, 0).Some?
    ensures var g := Search(s, p, 0).value.group;
            g.start == 0 || !IsWordChar(s[g.start - 1])
  {
    var m := Search(s, p, 0).value;
    match p
    case QuoteThenName(comma, verb) =>
      LeftmostQuoteThenNameIsWholeWord(s, comma, verb, m);
    case NameThenVerb(verb) =>
      LeftmostNameThenVerbIsWholeWord(s, verb, m);
  }

  /** After a closing quote the group of `"[^"]*,?"\s*(\w+)\s+verb` is a whole word. */
  lemma LeftmostQuoteThenNameIsWholeWord(s: string, comma: bool, verb: string, m: Match)
    requires m.start <= |s| && QuoteThenNameAt(s, m.start, comma, verb) == Some(m.group)
    ensures m.group.start == 0 || !IsWordChar(s[m.group.start - 1])
  {
    var t := QuoteThenNameSound(s, m.start, comma, verb);
    QuotedNameIsWholeWord(s, m.start, comma, verb, t);
  }

  /** If the group of `(\w+)\s+verb,?\s*"` continued a word, the search would have
      matched one position earlier. */
  lemma LeftmostNameThenVerbIsWholeWord(s: string, verb: string, m: Match)
    requires IsVerb(verb) && Search(s, NameThenVerb(verb), 0) == Some(m)
    ensures m.group.start == 0 || !IsWordChar(s[m.group.start - 1])
  {
    var p := NameThenVerb(verb);
    var t := NameThenVerbSound(s, m.start, verb);
    if m.start > 0 && IsWordChar(s[m.start - 1]) {
      var t' := t.(nameStart := m.start - 1);
      ExtendNameLeft(s, m.start, verb, t);
      MatchAtComplete(s, m.start - 1, p, t');
    }
  }

  /** A run of `(\w+)\s+verb,?\s*"` whose group is preceded by a word character can also
      start one position earlier. */
  lemma ExtendNameLeft(s: string, i: nat, verb: string, t: Trace)
    requires Accepts(s, NameThenVerb(verb), i, t) && 0 < i && IsWordChar(s[i - 1])
    ensures Accepts(s, NameThenVerb(verb), i - 1, t.(nameStart := i - 1))
  {
    assert AllIn(s, i - 1, t.nameEnd, Word);
  }

  /** After a closing quote the group starts after the quote or after whitespace. */
  lemma QuotedNameIsWholeWord(s: string, i: nat, comma: bool, verb: string, t: Trace)
    requires Accepts(s, QuoteThenName(comma, verb), i, t)
    ensures !IsWordChar(s[t.nameStart - 1])
  {
    if t.nameStart > t.close + 1 {
      assert InClass(s[t.nameStart - 1], Space);
    }
  }

  /** The position of the first pattern whose search succeeds, or the number of patterns
      when none does. */
  lemma {:induction false} FirstSuccess(text: string, patterns: seq<Pattern>) returns (k: nat)
    ensures k <= |patterns|
    ensures forall j :: 0 <= j < k ==> Search(text, patterns[j], 0).None?
    ensures k < |patterns| ==> Search(text, patterns[k], 0).Some?
  {
    if patterns == [] || Search(text, patterns[0], 0).Some? {
      k := 0;
    } else {
      var k' := FirstSuccess(text, patterns[1..]);
      k := k' + 1;
      forall j | 0 < j < k ensures Search(text, patterns[j], 0).None? {
        assert patterns[j] == patterns[1..][j - 1];
      }
      if k' < |patterns| - 1 {
        assert patterns[k] == patterns[1..][k'];
      }
    }
  }

  /** What `extract_speaker` returns: either no pattern matches and the label is
      `unknown`, or pattern `k` is the first that matches, the label is its group
      lower-cased, and that group is a whole word followed by whitespace and the
      pattern's reporting verb. */
  lemma SpeakerOrigin(text: string) returns (k: nat)
    ensures k <= |SpeakerPatterns|
    ensures forall j :: 0 <= j < k ==> Search(text, SpeakerPatterns[j], 0).None?
    ensures k == |SpeakerPatterns| ==> ExtractSpeaker(text) == Unknown
    ensures k < |SpeakerPatterns| ==>
              Search(text, SpeakerPatterns[k], 0).Some?
              && var g := Search(text, SpeakerPatterns[k], 0).value.group;
                 ExtractSpeaker(text) == Lower(Group(text, g))
                 && NameBeforeVerb(text, g, SpeakerPatterns[k].verb)
                 && (g.start == 0 || !IsWordChar(text[g.start - 1]))
  {
    SpeakerPatternsWellFormed();
    k := FirstSuccess(text, SpeakerPatterns);
    if k == |SpeakerPatterns| {
      NoMatchIsUnknown(text, SpeakerPatterns);
    } else {
      FirstMatchDecides(text, SpeakerPatterns, k);
      LeftmostNameIsWholeWord(text, SpeakerPatterns[k]);
    }
  }
}
