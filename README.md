# NovelReader text analysis and voice assignment, in Dafny

This project models the part of the NovelReader command-line reader that decides
*who says what* in a novel, and *with which voice*. The speech engines and audio are
left out.

- **Segmenter** (`NovelReader.parse_text`). The text is cut at every blank line
  (`"\n\n"`). Each piece is stripped of whitespace and empty pieces are dropped. Each
  remaining paragraph becomes one segment, in source order:
  - a *dialogue* segment when the paragraph contains a `"…"` pair;
  - otherwise a *narrative* segment spoken by `narrator`.
- **Speaker attributor** (`is_dialogue`, `extract_dialogue_text`, `extract_speaker`).
  - The dialogue text is what lies between the first two `"`.
  - The speaker comes from eight lexical patterns tried in order, such as
    `"…," NAME said` and `NAME replied, "…"`. The first pattern whose leftmost match
    succeeds gives the lower-cased `NAME`; when none matches the speaker is `unknown`.
  - Each pattern is a hand-written matcher (`Patterns.MatchAt`) over `seq<char>`. It is
    proved equal to a declarative description of the regular expression's successful
    runs (`Patterns.Accepts`), in both directions. `Patterns.Search` gives the leftmost
    match, as `re.search` does.
- **Voice assigner** (`assign_google_voice`, the `gtts_voices` catalog and the
  `voice_assignments` table).
  - The class `Voices.VoiceAssigner` holds the table as a `map<string, VoiceKey>` field.
  - Its method `AssignVoice` is proved to implement the specification function
    `Voices.Assign`.
  - The narrator bypasses the table, and known labels keep their voice.
  - A new label gets a voice chosen by gendered name lists and table-size parity, or by
    a four-voice rotation.
  - Lemmas about `Voices.Run` state what a whole run of lookups does to the table.
- **Run statistics** (`process_file`). The dialogue and narrative counts, the set of
  detected characters, and the voices the speech loop looks up for the segments in order.
- **Accent display** (`main`). The summary derives an accent name from each assigned
  voice's domain; see Findings.

The Python built-ins involved are modelled explicitly in `PyText`: `str.split`,
`str.strip` with Python's whitespace set, `str.lower`, and the `in` test on strings.

Two details of the code worth knowing:

- The dialogue text of `"Hello," John said.` is `Hello,`, comma included
  (`Scenarios.SaidText`).
- A voice profile's rate is the boolean `slow` of the catalog, not a numeric factor.

## Model

| member | source | states |
|---|---|---|
| PyText.Strip | novelreader.py:166-168 | The stripped paragraph is empty exactly when the piece is all whitespace; otherwise it starts and ends with a non-whitespace character. |
| PyText.StripBounds | novelreader.py:166 | What `strip` removes is whitespace at both ends, and the kept part starts and ends with non-whitespace. |
| PyText.SplitParagraphs | novelreader.py:163 | `text.split('\n\n')`; its contract is stated in `PyText.SplitParagraphsSpec`. |
| PyText.SplitParagraphsSpec | novelreader.py:163 | `split('\n\n')` yields at least one piece, and joining the pieces with the separator gives back the text. No piece contains a blank line, and no piece but the last ends in a newline, because cuts are made at the leftmost separator. |
| PyText.Lower | novelreader.py:209 | Lower-casing a word of `\w` characters keeps its length and turns each character into its `re.IGNORECASE` fold (`PyText.CaseFold`), a lower-case letter, digit or `_`. |
| PyText.Contains | novelreader.py:70 | `name in label`; `PyText.ContainsIff` ties it both ways to an occurrence at some position. |
| PyText.ContainsIff | novelreader.py:70 | `name in label` holds exactly when the name occurs at some position of the label. |
| PyText.ContainsAny | novelreader.py:70-72 | `any(name in label for name in names)` holds exactly when some listed name is contained in the label. |
| PyText.RunEnd | novelreader.py:191 | A greedy repetition of a character class stops at the end of the longest run of that class. |
| Patterns.NameVerbAt | novelreader.py:196-203 | A `(\w+)\s+verb` match starting at a position captures a non-empty word followed by whitespace and then the verb, ignoring case. |
| Patterns.MatchAt | novelreader.py:189-215 | A match at one start position has a group within the text; a speaker pattern's group is a word followed by whitespace and the reporting verb. |
| Patterns.MatchAtSound | novelreader.py:189-215 | Every match the matcher reports is a successful run of the regular expression with the same group. |
| Patterns.MatchAtComplete | novelreader.py:189-215 | Every successful run of the regular expression at a position is found by the matcher, with the same group, so the captured group is unique. |
| Patterns.QuoteCloseComplete | novelreader.py:191 | Every closing quote that `"[^"]*"` can reach from an opening quote is the one the matcher finds: `[^"]*` cannot cross a quote. |
| Patterns.QuotedAtFailsBeforeQuote | novelreader.py:191 | `"[^"]*"` fails at a position only when that position is not a quote or no later quote follows it. |
| Patterns.Search | novelreader.py:189-215 | `re.search` returns the leftmost start at which the pattern matches; no earlier start matches, and no match at all means no start matches. |
| Attribution.IsDialogueIffTwoQuotes | novelreader.py:189-191 | `is_dialogue` holds exactly when the paragraph contains at least two `"` characters. |
| Attribution.IsDialogue | novelreader.py:189-191 | `is_dialogue`, a search for `"[^"]*"`; `Attribution.IsDialogueIffTwoQuotes` proves it holds exactly when the paragraph has two or more quotes. |
| Attribution.ExtractDialogueText | novelreader.py:213-218 | With fewer than two quotes the paragraph is returned unchanged; otherwise the result contains no quote. |
| Attribution.DialogueTextBetweenFirstQuotes | novelreader.py:213-218 | With two or more quotes the paragraph is a quote-free prefix, a quote, the dialogue text, a quote, and the rest. |
| Attribution.SpeakerPatternsWellFormed | novelreader.py:195-204 | The eight patterns capture a name next to a lower-case reporting verb. |
| Attribution.SpeakerFrom | novelreader.py:206-211 | Trying the patterns in order always yields a non-empty label of lower-case word characters. |
| Attribution.ExtractSpeaker | novelreader.py:193-211 | `extract_speaker` always returns a non-empty string of lower-case letters, digits and `_`. |
| Attribution.FirstMatchDecides | novelreader.py:206-209 | The first pattern whose search succeeds decides the label, whatever later patterns would find. |
| Attribution.NoMatchIsUnknown | novelreader.py:211 | When no pattern matches, the label is `unknown`. |
| Attribution.LoweredNameIsWord | novelreader.py:209 | The lower-cased group of a speaker match is a non-empty lower-case word. |
| Attribution.LeftmostNameIsWholeWord | novelreader.py:196-207 | The group of the leftmost match of a speaker pattern does not continue a word that starts before it. |
| Attribution.SpeakerOrigin | novelreader.py:193-211 | The label is `unknown` when no pattern matches. Otherwise it is the lower-cased group of the first matching pattern: a whole word immediately followed by whitespace and that pattern's verb. |
| Segmenter.Kept | novelreader.py:165-168 | The paragraphs kept are never more than the pieces, and none of them is empty. |
| Segmenter.KeptPicksInOrder | novelreader.py:163-168 | The kept paragraphs are the stripped pieces at strictly increasing positions, and every piece not kept strips to nothing. |
| Segmenter.BuildSegment | novelreader.py:170-185 | The record of one paragraph is a dialogue exactly when the paragraph holds two quotes, with the extracted speaker and dialogue text. Otherwise it is narrative, spoken by `narrator`, with the whole paragraph as text. |
| Segmenter.ParseText | novelreader.py:160-187 | `parse_text` yields one segment per non-empty stripped piece, in order, with `original` equal to it. A segment is dialogue exactly when its paragraph holds two quotes, with the extracted speaker and dialogue text. Otherwise it is narrative, spoken by `narrator`, with the whole paragraph as text. |
| Voices.Catalog | novelreader.py:35-43 | The `gtts_voices` table. Every profile is English, and only the elderly voice is slow. |
| Voices.ChooseKey | novelreader.py:63-77 | A new label always gets one of the four character voices, never narrator, child or elderly. A female name wins over a male name. A gendered label gets its gender's first voice at an even table size and the second at an odd size. Any other label is female exactly at even sizes, and gets a first voice exactly when the size mod 4 is below 2. |
| Voices.GenderedAlternates | novelreader.py:71-73 | A gendered label's voice differs between consecutive table sizes and repeats with period two. |
| Voices.RotationCoversAll | novelreader.py:75-77 | An ungendered label meets each of the four character voices once over any four consecutive table sizes. |
| Voices.Assign | novelreader.py:55-80 | The narrator gets the narrator profile and the table is unchanged. A known label gets its stored voice and the table is unchanged. A new label is added with the chosen voice and every other entry is kept. The profile returned is the one the table gives the label, and a valid table stays valid. |
| Voices.AssignIdempotent | novelreader.py:60-61 | A repeated call with the same label returns the same profile and changes nothing. |
| Voices.Run | novelreader.py:295-307 | One `assign_google_voice` call per segment speaker, in order. It gives one profile per call; `Voices.RunKeys`, `RunKeepsEntries`, `RunValid` and `RunProfiles` state what it does to the table. |
| Voices.RunKeys | novelreader.py:55-80 | After a run of lookups the table holds exactly the earlier entries and every label met except `narrator`. |
| Voices.RunKeepsEntries | novelreader.py:60-79 | A run never removes or reassigns an entry. |
| Voices.RunValid | novelreader.py:57-79 | A run keeps the table free of `narrator` and holding only character voices. |
| Voices.RunProfiles | novelreader.py:55-80 | Every lookup of a run returned the profile that the final table gives its label, so a speaker keeps one voice for the whole run. |
| Voices.RunConsistent | novelreader.py:60-61 | Two lookups of a run with the same label return the same profile. |
| Voices.VoiceAssigner.constructor | novelreader.py:44 | A new assigner starts with an empty table. |
| Voices.VoiceAssigner.AssignVoice | novelreader.py:55-80 | One call returns the profile and leaves the table that `Assign` prescribes, and keeps the table valid. |
| Voices.VoiceAssigner.AssignAll | novelreader.py:275-281 | Looking up the speakers one after another yields the profiles and table of `Run`. |
| Processing.CountKind | novelreader.py:254 | The count of a kind is at most the number of segments. It is zero exactly when no segment has that kind, and full exactly when every segment has it. |
| Processing.CountKindConcat | novelreader.py:254 | The count is additive over concatenation. Together with the all/none cases of `CountKind`, this fixes it as one per segment of the kind. |
| Processing.DialogueCount | novelreader.py:254 | `sum(1 for s in segments if s['type'] == 'dialogue')`, the `CountKind` of dialogue, whose contract and `CountKindConcat` give its value. |
| Processing.NarrativeCount | novelreader.py:255 | The segment count minus the dialogue count; `Processing.NarrativeCountIsNarratives` proves it is the number of narrative segments. |
| Processing.NarrativeCountIsNarratives | novelreader.py:254-255 | The narrative count, computed as segments minus dialogues, is the number of narrative segments and lies between 0 and the segment count. |
| Processing.Characters | novelreader.py:259 | The set of speakers other than `narrator`: it never holds `narrator`, holds every other segment speaker, and holds nothing else. |
| Processing.VoicesOfRun | novelreader.py:259-281 | After voicing the segments, the table's labels are exactly the detected characters, each with a character voice, and every segment was spoken with its speaker's final voice. |
| Processing.CharactersAreAttributed | novelreader.py:259-260 | Every detected character of a parsed text is the extracted speaker of some dialogue paragraph, a non-empty lower-case word. |
| Accents.ReplaceAbsent | novelreader.py:385 | `replace` leaves a string without an occurrence of the pattern unchanged. |
| Accents.ReplaceWhole | novelreader.py:385 | `replace` turns a string that is exactly the pattern into the replacement. |
| Accents.ReplaceMissing | novelreader.py:385 | `replace` leaves a string unchanged when it lacks one of the pattern's characters. |
| Accents.Replace | novelreader.py:385 | `str.replace`; `Accents.ReplaceAbsent`, `ReplaceWhole` and `ReplaceMissing` state its effect on the strings the summary meets. |
| Accents.AccentAsWritten | novelreader.py:385 | The chained `replace` as written; `AccentAsWrittenMisnamesAustralia` and `AccentAsWrittenElsewhere` give its value on every catalog domain. |
| Accents.Accent | novelreader.py:385 | The intended accent. A domain outside the catalog is shown unchanged; `AccentNamesRegion` proves each catalog domain is named after its region. |
| Accents.AccentNamesRegion | novelreader.py:36-42 | The corrected accent names the region of every catalog voice, and the four character voices get four different accents. |
| Accents.AccentAsWrittenMisnamesAustralia | novelreader.py:385 | The chained `replace` shows the Australian voice as `US.au`, not `Australian`. |
| Accents.AccentAsWrittenElsewhere | novelreader.py:385 | On every other catalog domain the chained `replace` gives the intended accent. |
| Scenarios.SaidSpeaker | novelreader.py:196-209 | `"Hello," John said.` is attributed to `john` by the first pattern. |
| Scenarios.SaidText | novelreader.py:213-217 | The dialogue text of `"Hello," John said.` is `Hello,`. |

## Left out

- Speech synthesis and audio are not modelled: `text_to_speech_google`, `text_to_speech_fallback`, `apply_character_effects`, the silence between segments and audio export. They are network calls, audio libraries and floating point.
- File reading, printing, `time.sleep`, the preview listing, `list_voice_options`, `main`'s argument parsing and exit codes are console and CLI I/O.
- The pyttsx3 path (`use_google_tts` false, `setup_default_voices`) is not modelled. In that path no voice table is kept.
- `\w` is modelled as ASCII letters, digits and `_`. Python's `\w` also matches non-ASCII letters and digits.
- PyText.Lower: maps only ASCII capitals, the Kelvin sign and the dotted capital I; other non-ASCII upper-case letters are left as they are. A speaker group consists of ASCII word characters only, so every label the attributor produces is lowered exactly.
- Voices.VoiceAssigner: the table maps labels to catalog keys, and a profile is read from the catalog by key. The source stores the profile record itself. Since every stored record is a catalog value, the profiles returned are the same.
- Voices.ChooseKey: the name test is substring containment, as written, so `alexandra` counts as male and `samantha` too.
- A dialogue whose attributed speaker is `narrator` is spoken with the narrator profile and is not counted as a character. The model keeps this behaviour.
- The speech loop in `process_file` looks voices up only when the Google path is active. `Processing.VoicesOfRun` describes that path.

## Findings

| source | as written | input that shows it | evidently intended | confidence | as-written member | corrected member |
|---|---|---|---|---|---|---|
| novelreader.py:385 | The accent is computed by chained `replace` calls: `com`→`US`, then `co.uk`→`British`, then `com.au`→`Australian`, then `ca`→`Canadian`. The first step rewrites the `com` inside `com.au`. | the `male_2` voice, domain `com.au`, is shown as `US.au English` | `Australian English` | not executed | Accents.AccentAsWrittenMisnamesAustralia | Accents.AccentNamesRegion |
