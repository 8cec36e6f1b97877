/** A worked paragraph: `"Hello," John said.` is attributed to `john`, and its quoted
    text keeps the comma that stands inside the quotes. */
module Scenarios {
  import opened PyText
  import opened Patterns
  import opened Attribution

  /** The paragraph of the example. */
  const Said: string := "\"Hello,\" John said."

  /** The first speaker pattern matches at the opening quote and captures `John`. */
  lemma SaidMatch()
    ensures MatchAt(Said, 0, QuoteThenName(true, "said")) == Some(Span(9, 13))
  {
    SaidClose();
    SaidNameAfterQuote();
  }

  /** `"[^"]*,"` runs from the opening quote to the quote at 7, after the comma. */
  lemma SaidClose()
    ensures QuoteClose(Said, 0, true) == Some(7)
  {
    RunEndUnique(Said, 1, 7, NonQuote);
  }

  /** After that quote, `\s*(\w+)\s+said` captures `John`. */
  lemma SaidNameAfterQuote()
    ensures NameAfterQuote(Said, 7, "said") == Some(Span(9, 13))
  {
    RunEndUnique(Said, 8, 9, Space);
    RunEndUnique(Said, 9, 13, Word);
    RunEndUnique(Said, 13, 14, Space);
    assert VerbAt(Said, 14, "said");
  }

  lemma SaidSearch()
    ensures Search(Said, SpeakerPatterns[0], 0) == Some(Match(0, Span(9, 13)))
  {
    SaidMatch();
  }

  lemma SaidName()
    ensures Lower(Group(Said, Span(9, 13))) == "john"
  {
    assert Group(Said, Span(9, 13)) == "John";
    LowerJohn();
  }

  /** The first pattern decides the speaker: `john`. */
  lemma SaidSpeaker()
    ensures ExtractSpeaker(Said) == "john"
  {
    SaidSearch();
    SpeakerPatternsWellFormed();
    FirstMatchDecides(Said, SpeakerPatterns, 0);
    SaidName();
  }

  lemma LowerJohn()
    ensures Lower("John") == "john"
  {
    assert Lower("n") == "n";
    assert Lower("hn") == "hn";
    assert Lower("ohn") == "ohn";
  }

  /** The quoted text runs from the first quote to the second, so it keeps the comma. */
  lemma SaidText()
    ensures ExtractDialogueText(Said) == "Hello,"
  {
    RunEndUnique(Said, 1, 7, NonQuote);
    assert MatchAt(Said, 0, Quoted) == Some(Span(1, 7));
    assert Search(Said, Quoted, 0) == Some(Match(0, Span(1, 7)));
    assert Group(Said, Span(1, 7)) == "Hello,";
  }
}
