/** Character classes and the Python string built-ins that the reader relies on:
    `str.isspace`, the `\w` class, `str.strip`, `str.split('\n\n')`, `str.lower`
    and the `in` test on strings. */
module PyText {

  /** Python's `str.isspace()`. In a `str` pattern, `\s` matches exactly these characters. */
  predicate IsSpace(c: char) {
    ('\t' <= c <= '\r') || ('\U{1C}' <= c <= ' ') || c == '\U{85}' || c == '\U{A0}'
    || c == '\U{1680}' || ('\U{2000}' <= c <= '\U{200A}') || c == '\U{2028}' || c == '\U{2029}'
    || c == '\U{202F}' || c == '\U{205F}' || c == '\U{3000}'
  }

  /** The regex class `\w`, restricted to ASCII letters, digits and the underscore. */
  predicate IsWordChar(c: char) {
    ('a' <= c <= 'z') || ('A' <= c <= 'Z') || ('0' <= c <= '9') || c == '_'
  }

  /** What `str.lower()` leaves of a word character: a lower-case letter, a digit or `_`. */
  predicate IsLowerWordChar(c: char) {
    ('a' <= c <= 'z') || ('0' <= c <= '9') || c == '_'
  }

  /** The three character classes a pattern repeats: `\s`, `\w` and `[^"]`. */
  datatype CharClass = Space | Word | NonQuote

  predicate InClass(c: char, cl: CharClass) {
    match cl
    case Space => IsSpace(c)
    case Word => IsWordChar(c)
    case NonQuote => c != '"'
  }

  /** Every character of `s[i..j]` belongs to `cl`. */
  predicate AllIn(s: string, i: nat, j: nat, cl: CharClass)
    requires i <= j <= |s|
  {
    forall k :: i <= k < j ==> InClass(s[k], cl)
  }

  /** The end of the longest run of `cl` characters that starts at `i`: where a greedy
      repetition of `cl` stops. */
  function RunEnd(s: string, i: nat, cl: CharClass): (e: nat)
    requires i <= |s|
    ensures i <= e <= |s|
    ensures AllIn(s, i, e, cl)
    ensures e == |s| || !InClass(s[e], cl)
    decreases |s| - i
  {
    if i < |s| && InClass(s[i], cl) then RunEnd(s, i + 1, cl) else i
  }

  /** A run of `cl` characters that cannot be extended is the one `RunEnd` finds. */
  lemma RunEndUnique(s: string, i: nat, e: nat, cl: CharClass)
    requires i <= e <= |s|
    requires AllIn(s, i, e, cl)
    requires e == |s| || !InClass(s[e], cl)
    ensures RunEnd(s, i, cl) == e
  {
  }

  // ---------------------------------------------------------------- str.strip()

  /** The start of the trailing whitespace of `s[lo..hi]`. */
  function TrailStart(s: string, lo: nat, hi: nat): (b: nat)
    requires lo <= hi <= |s|
    ensures lo <= b <= hi
    ensures AllIn(s, b, hi, Space)
    ensures b == lo || !IsSpace(s[b - 1])
    decreases hi
  {
    if lo < hi && IsSpace(s[hi - 1]) then TrailStart(s, lo, hi - 1) else hi
  }

  /** The bounds `(a, b)` of what `str.strip()` keeps of `s`: everything before `a` and
      from `b` on is whitespace, and the kept part neither starts nor ends with whitespace. */
  function StripBounds(s: string): (r: (nat, nat))
    ensures r.0 <= r.1 <= |s|
    ensures AllIn(s, 0, r.0, Space) && AllIn(s, r.1, |s|, Space)
    ensures r.0 < r.1 ==> !IsSpace(s[r.0]) && !IsSpace(s[r.1 - 1])
    ensures r.0 == r.1 ==> AllIn(s, 0, |s|, Space)
  {
    var a := RunEnd(s, 0, Space);
    (a, TrailStart(s, a, |s|))
  }

  /** Python's `str.strip()` with no argument. */
  function Strip(s: string): (r: string)
    ensures |r| <= |s|
    ensures r == [] <==> AllIn(s, 0, |s|, Space)
    ensures r != [] ==> !IsSpace(r[0]) && !IsSpace(r[|r| - 1])
  {
    var (a, b) := StripBounds(s);
    s[a..b]
  }

  // ------------------------------------------------------------ str.split('\n\n')

  /** The paragraph separator, a blank line. */
  const Separator: string := "\n\n"

  /** A separator starts at position `k` of `s`. */
  predicate SeparatorAt(s: string, k: nat) {
    k + 1 < |s| && s[k] == '\n' && s[k + 1] == '\n'
  }

  /** The pieces of `s[start..]`, where the current piece began at `start` and the scan for
      the next separator has reached `i`. */
  function SplitFrom(s: string, start: nat, i: nat): seq<string>
    requires start <= i <= |s|
    decreases |s| - i
  {
    if i == |s| then [s[start..]]
    else if SeparatorAt(s, i) then [s[start..i]] + SplitFrom(s, i + 2, i + 2)
    else SplitFrom(s, start, i + 1)
  }

  /** Python's `s.split('\n\n')`: cut at each separator, scanning left to right. */
  function SplitParagraphs(s: string): seq<string> {
    SplitFrom(s, 0, 0)
  }

  /** Python's `'\n\n'.join(pieces)`. */
  function JoinParagraphs(pieces: seq<string>): string {
    if pieces == [] then []
    else if |pieces| == 1 then pieces[0]
    else pieces[0] + Separator + JoinParagraphs(pieces[1..])
  }

  /** Joining the pieces of `s[start..]` with the separator gives `s[start..]` back. */
  lemma {:induction false} SplitFromJoin(s: string, start: nat, i: nat)
    requires start <= i <= |s|
    ensures |SplitFrom(s, start, i)| >= 1
    ensures JoinParagraphs(SplitFrom(s, start, i)) == s[start..]
    decreases |s| - i
  {
    if i < |s| && SeparatorAt(s, i) {
      SplitFromJoin(s, i + 2, i + 2);
      assert s[start..] == s[start..i] + Separator + s[i + 2..];
    } else if i < |s| {
      SplitFromJoin(s, start, i + 1);
    }
  }

  /** When no separator starts in `s[start..i]`, no piece of `s[start..]` holds a
      separator and no piece but the last ends with a newline. */
  lemma {:induction false} SplitFromPieces(s: string, start: nat, i: nat)
    requires start <= i <= |s|
    requires forall k :: start <= k < i ==> !SeparatorAt(s, k)
    ensures forall n, k :: 0 <= n < |SplitFrom(s, start, i)| ==> !SeparatorAt(SplitFrom(s, start, i)[n], k)
    ensures forall n :: 0 <= n < |SplitFrom(s, start, i)| - 1 && SplitFrom(s, start, i)[n] != [] ==>
              SplitFrom(s, start, i)[n][|SplitFrom(s, start, i)[n]| - 1] != '\n'
    decreases |s| - i
  {
    var r := SplitFrom(s, start, i);
    if i == |s| {
      forall k: nat ensures !SeparatorAt(s[start..], k) {
        if k + 1 < |s| - start {
          assert !SeparatorAt(s, start + k);
        }
      }
    } else if SeparatorAt(s, i) {
      var piece := s[start..i];
      var rest := SplitFrom(s, i + 2, i + 2);
      SplitFromPieces(s, i + 2, i + 2);
      assert r == [piece] + rest;
      forall k: nat ensures !SeparatorAt(piece, k) {
        if k + 1 < |piece| {
          assert !SeparatorAt(s, start + k);
        }
      }
      if piece != [] {
        assert !SeparatorAt(s, i - 1);
      }
      forall n, k | 0 <= n < |r| ensures !SeparatorAt(r[n], k) {
        if n > 0 { assert r[n] == rest[n - 1]; }
      }
      forall n | 0 <= n < |r| - 1 && r[n] != [] ensures r[n][|r[n]| - 1] != '\n' {
        if n > 0 { assert r[n] == rest[n - 1]; }
      }
    } else {
      SplitFromPieces(s, start, i + 1);
    }
  }

  /** `split('\n\n')` yields at least one piece; joining the pieces back with the separator
      gives the text again; no piece contains a separator; and since the scan cuts at the
      leftmost separator, no piece but the last ends with a newline. */
  lemma SplitParagraphsSpec(s: string)
    ensures |SplitParagraphs(s)| >= 1
    ensures JoinParagraphs(SplitParagraphs(s)) == s
    ensures forall n, k :: 0 <= n < |SplitParagraphs(s)| ==> !SeparatorAt(SplitParagraphs(s)[n], k)
    ensures forall n :: 0 <= n < |SplitParagraphs(s)| - 1 && SplitParagraphs(s)[n] != [] ==>
              SplitParagraphs(s)[n][|SplitParagraphs(s)[n]| - 1] != '\n'
  {
    SplitFromJoin(s, 0, 0);
    SplitFromPieces(s, 0, 0);
  }

  // ------------------------------------------------------------------ str.lower()

  /** The character that `re.IGNORECASE` compares: ASCII letters fold to lower case, and the
      four non-ASCII letters Python folds onto ASCII ones (U+0130 and U+0131 onto `i`,
      U+017F onto `s`, U+212A onto `k`). */
  function CaseFold(c: char): char {
    if 'A' <= c <= 'Z' then (c as int + 32) as char
    else if c == '\U{130}' || c == '\U{131}' then 'i'
    else if c == '\U{17F}' then 's'
    else if c == '\U{212A}' then 'k'
    else c
  }

  /** What `str.lower()` makes of one character: ASCII capitals, the Kelvin sign (which
      becomes `k`) and the dotted capital I (which becomes `i` and a combining dot); other
      characters are kept as they are. */
  function LowerChar(c: char): string {
    if 'A' <= c <= 'Z' then [(c as int + 32) as char]
    else if c == '\U{212A}' then "k"
    else if c == '\U{130}' then "i\U{307}"
    else [c]
  }

  /** Python's `str.lower()`. On a string of word characters it keeps the length, and each
      character becomes its `re.IGNORECASE` fold, a lower-case word character. */
  function Lower(s: string): (r: string)
    ensures (forall k :: 0 <= k < |s| ==> IsWordChar(s[k])) ==>
              |r| == |s| && forall k :: 0 <= k < |r| ==> r[k] == CaseFold(s[k]) && IsLowerWordChar(r[k])
  {
    if s == [] then [] else LowerChar(s[0]) + Lower(s[1..])
  }

  // ------------------------------------------------------------- `needle in hay`

  /** `needle` occurs in `hay` starting at position `k`. */
  predicate OccursAt(hay: string, needle: string, k: nat) {
    k + |needle| <= |hay| && hay[k..k + |needle|] == needle
  }

  /** Python's `needle in hay` for two strings. */
  function Contains(hay: string, needle: string): bool {
    needle <= hay || (hay != [] && Contains(hay[1..], needle))
  }

  /** `Contains` holds exactly when the needle occurs at some position of the hay. */
  lemma {:induction false} ContainsIff(hay: string, needle: string)
    ensures Contains(hay, needle) <==> exists k :: OccursAt(hay, needle, k)
  {
    if needle <= hay {
      assert OccursAt(hay, needle, 0);
    } else if hay == [] {
    } else {
      ContainsIff(hay[1..], needle);
      if k: nat :| OccursAt(hay[1..], needle, k) {
        assert hay[1..][k..k + |needle|] == hay[k + 1..k + 1 + |needle|];
        assert OccursAt(hay, needle, k + 1);
      }
      forall k: nat | OccursAt(hay, needle, k) ensures Contains(hay[1..], needle) {
        if k == 0 {
          assert hay[..|needle|] == needle;
        } else {
          assert hay[1..][k - 1..k - 1 + |needle|] == hay[k..k + |needle|];
          assert OccursAt(hay[1..], needle, k - 1);
        }
      }
    }
  }

  /** Python's `any(name in hay for name in names)`. */
  function ContainsAny(hay: string, names: seq<string>): (b: bool)
    ensures b <==> exists n :: 0 <= n < |names| && Contains(hay, names[n])
  {
    if names == [] then false else Contains(hay, names[0]) || ContainsAny(hay, names[1..])
  }
}
