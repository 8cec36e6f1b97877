/** The voice assigner: the `gtts_voices` catalog, the run-scoped `voice_assignments`
    table and `NovelReader.assign_google_voice`. */
module Voices {
  import opened PyText

  /** The keys of the voice catalog. */
  datatype VoiceKey = Narrator | Male1 | Female1 | Male2 | Female2 | Child | Elderly

  /** A voice profile: language, the top-level domain that selects the accent, and whether
      to speak slowly. */
  datatype Profile = Profile(lang: string, tld: string, slow: bool)

  /** The fixed catalog. Several keys share one profile: `Narrator` and `Male1`, and
      `Female1` and `Child`. */
  function Catalog(k: VoiceKey): (p: Profile)
    ensures p.lang == "en"
    ensures p.slow <==> k == Elderly
  {
    match k
    case Narrator => Profile("en", "com", false)
    case Male1 => Profile("en", "com", false)
    case Female1 => Profile("en", "co.uk", false)
    case Male2 => Profile("en", "com.au", false)
    case Female2 => Profile("en", "ca", false)
    case Child => Profile("en", "co.uk", false)
    case Elderly => Profile("en", "com", true)
  }

  /** The keys the assigner hands out to characters. */
  predicate IsCharacterVoice(k: VoiceKey) {
    k.Female1? || k.Male1? || k.Female2? || k.Male2?
  }

  predicate IsFemale(k: VoiceKey) {
    k.Female1? || k.Female2?
  }

  /** The first voice of a gender. */
  predicate IsFirst(k: VoiceKey) {
    k.Female1? || k.Male1?
  }

  /** The name that never goes through the table. */
  const NarratorLabel: string := "narrator"

  const FemaleNames: seq<string> := ["sarah", "anna", "emma", "lisa", "maria", "jane", "kate", "lucy", "amy"]
  const MaleNames: seq<string> := ["john", "david", "mike", "james", "robert", "tom", "alex", "sam", "ben"]

  /** The voices ungendered names cycle through. */
  const Rotation: seq<VoiceKey> := [Female1, Male1, Female2, Male2]

  /** The lower-cased name contains one of the female names. */
  predicate HasFemaleName(name: string) {
    ContainsAny(Lower(name), FemaleNames)
  }

  /** The lower-cased name contains one of the male names. */
  predicate HasMaleName(name: string) {
    ContainsAny(Lower(name), MaleNames)
  }

  /** The voice a new name gets when the table holds `size` entries. The female names are
      checked before the male ones; a gendered name gets its gender's first voice at an
      even size and its second at an odd one; any other name alternates female and male
      with the size and takes the second voice of each when `size % 4 >= 2`. Narrator,
      child and elderly are never chosen. */
  function ChooseKey(name: string, size: nat): (k: VoiceKey)
    ensures IsCharacterVoice(k)
    ensures HasFemaleName(name) ==> IsFemale(k)
    ensures !HasFemaleName(name) && HasMaleName(name) ==> !IsFemale(k)
    ensures HasFemaleName(name) || HasMaleName(name) ==> (IsFirst(k) <==> size % 2 == 0)
    ensures !HasFemaleName(name) && !HasMaleName(name) ==>
              (IsFemale(k) <==> size % 2 == 0) && (IsFirst(k) <==> size % 4 < 2)
  {
    if HasFemaleName(name) then (if size % 2 == 0 then Female1 else Female2)
    else if HasMaleName(name) then (if size % 2 == 0 then Male1 else Male2)
    else Rotation[size % 4]
  }

  /** A gendered name's voice alternates with the table size, with period two. */
  lemma GenderedAlternates(name: string, size: nat)
    requires HasFemaleName(name) || HasMaleName(name)
    ensures ChooseKey(name, size + 1) != ChooseKey(name, size)
    ensures ChooseKey(name, size + 2) == ChooseKey(name, size)
  {
  }

  /** An ungendered name gets each of the four character voices once over any four
      consecutive table sizes. */
  lemma RotationCoversAll(name: string, size: nat)
    requires !HasFemaleName(name) && !HasMaleName(name)
    ensures {ChooseKey(name, size), ChooseKey(name, size + 1), ChooseKey(name, size + 2), ChooseKey(name, size + 3)}
            == {Female1, Male1, Female2, Male2}
  {
  }

  // ------------------------------------------------------------ the table

  /** The table as `assign_google_voice` keeps it: the narrator name never enters it and
      every entry holds a character voice. */
  predicate ValidTable(table: map<string, VoiceKey>) {
    NarratorLabel !in table && forall l :: l in table ==> IsCharacterVoice(table[l])
  }

  /** The profile of a name as the table stands. */
  function VoiceOf(table: map<string, VoiceKey>, name: string): Profile
    requires name == NarratorLabel || name in table
  {
    if name == NarratorLabel then Catalog(Narrator) else Catalog(table[name])
  }

  /** The outcome of one call: the profile returned and the table afterwards. */
  datatype Assigned = Assigned(profile: Profile, table: map<string, VoiceKey>)

  /** One call of `assign_google_voice`. The narrator gets the narrator profile and the
      table is untouched; a known name gets its stored voice and the table is untouched;
      a new name is added with the voice `ChooseKey` picks for the current size and no
      other entry changes. */
  function Assign(table: map<string, VoiceKey>, name: string): (r: Assigned)
    ensures name == NarratorLabel || name in table ==> r.table == table
    ensures r.table.Keys == if name == NarratorLabel then table.Keys else table.Keys + {name}
    ensures forall l :: l in table ==> r.table[l] == table[l]
    ensures name != NarratorLabel && name !in table ==> r.table[name] == ChooseKey(name, |table|)
    ensures r.profile == VoiceOf(r.table, name)
    ensures ValidTable(table) ==> ValidTable(r.table)
  {
    if name == NarratorLabel then Assigned(Catalog(Narrator), table)
    else if name in table then Assigned(Catalog(table[name]), table)
    else
      var key := ChooseKey(name, |table|);
      Assigned(Catalog(key), table[name := key])
  }

  /** A second call with the same name returns the same profile and changes nothing. */
  lemma AssignIdempotent(table: map<string, VoiceKey>, name: string)
    ensures Assign(Assign(table, name).table, name) == Assign(table, name)
  {
  }

  // ------------------------------------------------------------- a run

  /** The outcome of a run: the profile of each call, in order, and the final table. */
  datatype RunResult = RunResult(profiles: seq<Profile>, table: map<string, VoiceKey>)

  /** Calls `assign_google_voice` on every name in turn, as processing a text does for
      the speaker of every segment. */
  function Run(table: map<string, VoiceKey>, names: seq<string>): (r: RunResult)
    ensures |r.profiles| == |names|
  {
    if names == [] then RunResult([], table)
    else
      var prev := Run(table, names[..|names| - 1]);
      var a := Assign(prev.table, names[|names| - 1]);
      RunResult(prev.profiles + [a.profile], a.table)
  }

  /** After a run the table holds exactly the earlier entries and the names met, the
      narrator excepted. */
  lemma {:induction false} RunKeys(table: map<string, VoiceKey>, names: seq<string>)
    ensures forall l :: l in Run(table, names).table <==> l in table || (l in names && l != NarratorLabel)
  {
    if names != [] {
      var n := |names| - 1;
      RunKeys(table, names[..n]);
      assert names == names[..n] + [names[n]];
    }
  }

  /** A run never reassigns an entry the table held before it. */
  lemma {:induction false} RunKeepsEntries(table: map<string, VoiceKey>, names: seq<string>)
    ensures table.Keys <= Run(table, names).table.Keys
    ensures forall l :: l in table ==> Run(table, names).table[l] == table[l]
  {
    if names != [] {
      RunKeepsEntries(table, names[..|names| - 1]);
    }
  }

  /** A run keeps the table valid. */
  lemma {:induction false} RunValid(table: map<string, VoiceKey>, names: seq<string>)
    requires ValidTable(table)
    ensures ValidTable(Run(table, names).table)
  {
    if names != [] {
      RunValid(table, names[..|names| - 1]);
    }
  }

  /** Every call of a run returned the profile that the final table gives its name: a
      speaker keeps one voice for the whole run. */
  lemma {:induction false} RunProfiles(table: map<string, VoiceKey>, names: seq<string>)
    ensures forall k :: 0 <= k < |names| ==> names[k] == NarratorLabel || names[k] in Run(table, names).table
    ensures forall k :: 0 <= k < |names| ==>
              Run(table, names).profiles[k] == VoiceOf(Run(table, names).table, names[k])
  {
    if names != [] {
      var n := |names| - 1;
      var prev := Run(table, names[..n]);
      RunProfiles(table, names[..n]);
      var r := Run(table, names);
      forall k | 0 <= k < n
        ensures names[k] == NarratorLabel || names[k] in r.table
        ensures r.profiles[k] == VoiceOf(r.table, names[k])
      {
        assert names[..n][k] == names[k];
        assert r.profiles[k] == prev.profiles[k];
      }
    }
  }

  /** Two calls of a run with the same name returned the same profile. */
  lemma RunConsistent(table: map<string, VoiceKey>, names: seq<string>, i: nat, j: nat)
    requires i < |names| && j < |names| && names[i] == names[j]
    ensures Run(table, names).profiles[i] == Run(table, names).profiles[j]
  {
    RunProfiles(table, names);
  }

  // ------------------------------------------------------------ the object

  /** The assigner state of one `NovelReader`: the `voice_assignments` table. */
  class VoiceAssigner {
    var assignments: map<string, VoiceKey>

    ghost predicate Valid()
      reads this
    {
      ValidTable(assignments)
    }

    /** `setup_google_tts` starts every run with an empty table. */
    constructor ()
      ensures Valid() && assignments == map[]
    {
      assignments := map[];
    }

    /** `assign_google_voice`. */
    method AssignVoice(character: string) returns (profile: Profile)
      requires Valid()
      modifies this
      ensures Valid()
      ensures Assigned(profile, assignments) == Assign(old(assignments), character)
    {
      if character == NarratorLabel {
        return Catalog(Narrator);
      }
      if character in assignments {
        return Catalog(assignments[character]);
      }
      var voiceKey := ChooseKey(character, |assignments|);
      assignments := assignments[character := voiceKey];
      profile := Catalog(assignments[character]);
    }

    /** The voice lookups of processing a text: one call per segment speaker, in order. */
    method AssignAll(speakers: seq<string>) returns (profiles: seq<Profile>)
      requires Valid()
      modifies this
      ensures Valid()
      ensures RunResult(profiles, assignments) == Run(old(assignments), speakers)
    {
      profiles := [];
      for i := 0 to |speakers|
        invariant Valid()
        invariant RunResult(profiles, assignments) == Run(old(assignments), speakers[..i])
      {
        assert speakers[..i + 1][..i] == speakers[..i];
        var profile := AssignVoice(speakers[i]);
        profiles := profiles + [profile];
      }
      assert speakers[..|speakers|] == speakers;
    }
  }
}
