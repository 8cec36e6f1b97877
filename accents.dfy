/** The accent names the command-line summary prints for each assigned voice, derived from
    the voice's top-level domain. */
module Accents {
  import opened PyText
  import opened Voices

  /** Python's `s.replace(pat, rep)`: every non-overlapping occurrence of `pat`, scanning
      left to right, is replaced by `rep`; an empty `pat` inserts `rep` before every
      character and at the end. */
  function Replace(s: string, pat: string, rep: string): string
    decreases |s|
  {
    if pat == [] then (if s == [] then rep else rep + [s[0]] + Replace(s[1..], pat, rep))
    else if pat <= s then rep + Replace(s[|pat|..], pat, rep)
    else if s == [] then []
    else [s[0]] + Replace(s[1..], pat, rep)
  }

  /** A string without an occurrence of a non-empty pattern is left as it is. */
  lemma {:induction false} ReplaceAbsent(s: string, pat: string, rep: string)
    requires pat != [] && !Contains(s, pat)
    ensures Replace(s, pat, rep) == s
    decreases |s|
  {
    if s != [] {
      ReplaceAbsent(s[1..], pat, rep);
      assert [s[0]] + s[1..] == s;
    }
  }

  /** A needle with a character that the hay lacks does not occur in it. */
  lemma {:induction false} MissingCharNotContained(hay: string, needle: string, j: nat)
    requires j < |needle| && needle[j] !in hay
    ensures !Contains(hay, needle)
    decreases |hay|
  {
    assert !(needle <= hay);
    if hay != [] {
      MissingCharNotContained(hay[1..], needle, j);
    }
  }

  /** A string that is exactly the pattern becomes exactly the replacement. */
  lemma ReplaceWhole(pat: string, rep: string)
    requires pat != []
    ensures Replace(pat, pat, rep) == rep
  {
    assert pat[|pat|..] == [];
  }

  /** A string holding none of the characters at some position of the pattern is left as
      it is. */
  lemma ReplaceMissing(s: string, pat: string, rep: string, j: nat)
    requires j < |pat| && pat[j] !in s
    ensures Replace(s, pat, rep) == s
  {
    MissingCharNotContained(s, pat, j);
    ReplaceAbsent(s, pat, rep);
  }

  /** The accent as the summary computes it: four replacements chained in this order. */
  function AccentAsWritten(tld: string): string {
    Replace(Replace(Replace(Replace(tld, "com", "US"), "co.uk", "British"), "com.au", "Australian"), "ca", "Canadian")
  }

  /** The region each character voice was chosen for. */
  function Region(k: VoiceKey): string {
    match k
    case Narrator => "US"
    case Male1 => "US"
    case Female1 => "British"
    case Male2 => "Australian"
    case Female2 => "Canadian"
    case Child => "British"
    case Elderly => "US"
  }

  /** The accent the summary evidently means: each catalog domain named as a whole. */
  function Accent(tld: string): (r: string)
    ensures tld !in {"com", "co.uk", "com.au", "ca"} ==> r == tld
  {
    if tld == "com" then "US"
    else if tld == "co.uk" then "British"
    else if tld == "com.au" then "Australian"
    else if tld == "ca" then "Canadian"
    else tld
  }

  /** The corrected accent names the region of every voice in the catalog, and the four
      character voices get four different accents. */
  lemma AccentNamesRegion(k: VoiceKey)
    ensures Accent(Catalog(k).tld) == Region(k)
    ensures forall j :: IsCharacterVoice(k) && IsCharacterVoice(j) && j != k ==>
              Accent(Catalog(j).tld) != Accent(Catalog(k).tld)
  {
  }

  /** The chained replacement rewrites `com` inside `com.au` before the `com.au` step can
      see it, so the Australian voice is reported as `US.au`. */
  lemma AccentAsWrittenMisnamesAustralia()
    ensures AccentAsWritten(Catalog(Male2).tld) == "US.au"
    ensures AccentAsWritten(Catalog(Male2).tld) != Accent(Catalog(Male2).tld)
  {
    var us := Replace("com.au", "com", "US");
    assert us == "US.au" by {
      assert "com" <= "com.au";
      assert "com.au"[3..] == ".au";
      ReplaceMissing(".au", "com", "US", 0);
    }
    ReplaceMissing(us, "co.uk", "British", 0);
    ReplaceMissing(us, "com.au", "Australian", 0);
    ReplaceMissing(us, "ca", "Canadian", 0);
  }

  /** On every other catalog domain the chained replacement gives the intended name. */
  lemma AccentAsWrittenElsewhere(k: VoiceKey)
    requires k != Male2
    ensures AccentAsWritten(Catalog(k).tld) == Accent(Catalog(k).tld)
  {
    AccentAsWrittenUS();
    AccentAsWrittenBritish();
    AccentAsWrittenCanadian();
  }

  /** The chained replacement on each of the other domains, one domain at a time. */
  lemma AccentAsWrittenUS()
    ensures AccentAsWritten("com") == "US"
  {
    ReplaceWhole("com", "US");
    ReplaceMissing("US", "co.uk", "British", 0);
    ReplaceMissing("US", "com.au", "Australian", 0);
    ReplaceMissing("US", "ca", "Canadian", 0);
  }

  lemma AccentAsWrittenBritish()
    ensures AccentAsWritten("co.uk") == "British"
  {
    ReplaceMissing("co.uk", "com", "US", 2);
    ReplaceWhole("co.uk", "British");
    ReplaceMissing("British", "com.au", "Australian", 0);
    ReplaceMissing("British", "ca", "Canadian", 0);
  }

  lemma AccentAsWrittenCanadian()
    ensures AccentAsWritten("ca") == "Canadian"
  {
    ReplaceMissing("ca", "com", "US", 1);
    ReplaceMissing("ca", "co.uk", "British", 1);
    ReplaceMissing("ca", "com.au", "Australian", 1);
    ReplaceWhole("ca", "Canadian");
  }
}
