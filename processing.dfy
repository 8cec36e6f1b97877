/** The per-run analysis `process_file` reports for a parsed text: the dialogue and
    narrative counts, the set of characters, and the voices the speech loop looks up. */
module Processing {
  import opened PyText
  import opened Attribution
  import opened Segmenter
  import Voices

  /** The number of segments of kind `kind`. */
  function CountKind(segs: seq<Segment>, kind: Kind): (n: nat)
    ensures n <= |segs|
    ensures n == 0 <==> forall i :: 0 <= i < |segs| ==> segs[i].kind != kind
    ensures n == |segs| <==> forall i :: 0 <= i < |segs| ==> segs[i].kind == kind
  {
    if segs == [] then 0
    else
      var n := |segs| - 1;
      assert forall i :: 0 <= i < n ==> segs[..n][i] == segs[i];
      CountKind(segs[..n], kind) + (if segs[n].kind == kind then 1 else 0)
  }

  /** Counting is additive over concatenation: with the all/none cases of a single
      segment, this fixes the count as one per segment of the kind. */
  lemma {:induction false} CountKindConcat(a: seq<Segment>, b: seq<Segment>, kind: Kind)
    ensures CountKind(a + b, kind) == CountKind(a, kind) + CountKind(b, kind)
  {
    if b == [] {
      assert a + b == a;
    } else {
      var n := |b| - 1;
      CountKindConcat(a, b[..n], kind);
      var ab := a + b;
      assert ab[..|ab| - 1] == a + b[..n];
      assert ab[|ab| - 1] == b[n];
      assert CountKind(ab, kind) == CountKind(a + b[..n], kind) + (if b[n].kind == kind then 1 else 0);
    }
  }

  /** The dialogue count: one for every segment of type dialogue. */
  function DialogueCount(segs: seq<Segment>): nat {
    CountKind(segs, Dialogue)
  }

  /** The narrative count, computed as the segments that are not dialogue. */
  function NarrativeCount(segs: seq<Segment>): int {
    |segs| - DialogueCount(segs)
  }

  /** Every segment is one of the two kinds, so the narrative count that the reader derives
      by subtraction is the number of narrative segments. */
  lemma {:induction false} NarrativeCountIsNarratives(segs: seq<Segment>)
    ensures NarrativeCount(segs) == CountKind(segs, Narrative)
    ensures 0 <= NarrativeCount(segs) <= |segs|
  {
    if segs != [] {
      NarrativeCountIsNarratives(segs[..|segs| - 1]);
    }
  }

  /** The speakers of the segments, in order: the labels the speech loop passes to the
      voice assigner, one per segment. */
  function Speakers(segs: seq<Segment>): (r: seq<string>)
    ensures |r| == |segs|
    ensures forall i :: 0 <= i < |segs| ==> r[i] == segs[i].speaker
  {
    seq(|segs|, i requires 0 <= i < |segs| => segs[i].speaker)
  }

  /** The characters detected: the speakers other than the narrator. */
  function Characters(segs: seq<Segment>): (r: set<string>)
    ensures Voices.NarratorLabel !in r
    ensures forall i :: 0 <= i < |segs| && segs[i].speaker != Voices.NarratorLabel ==> segs[i].speaker in r
    ensures forall c :: c in r ==> exists i :: 0 <= i < |segs| && segs[i].speaker == c
  {
    set s | s in segs && s.speaker != Voices.NarratorLabel :: s.speaker
  }

  /** Voicing the segments in order fills the voice table with exactly the detected
      characters, each with a character voice, and every segment is spoken with the voice
      the final table gives its speaker. */
  lemma VoicesOfRun(segs: seq<Segment>)
    ensures Voices.Run(map[], Speakers(segs)).table.Keys == Characters(segs)
    ensures Voices.ValidTable(Voices.Run(map[], Speakers(segs)).table)
    ensures forall i :: 0 <= i < |segs| ==>
              Voices.Run(map[], Speakers(segs)).profiles[i]
              == Voices.VoiceOf(Voices.Run(map[], Speakers(segs)).table, segs[i].speaker)
  {
    var names := Speakers(segs);
    Voices.RunKeys(map[], names);
    Voices.RunValid(map[], names);
    Voices.RunProfiles(map[], names);
    forall c | c in Characters(segs) ensures c in Voices.Run(map[], names).table {
      var s :| s in segs && s.speaker != Voices.NarratorLabel && s.speaker == c;
      var i :| 0 <= i < |segs| && segs[i] == s;
      assert names[i] == c;
    }
    forall c | c in Voices.Run(map[], names).table ensures c in Characters(segs) {
      var i :| 0 <= i < |names| && names[i] == c;
      assert segs[i] in segs;
    }
  }

  /** For the segments of a parsed text, every detected character is the speaker that
      attribution found for some dialogue paragraph: a non-empty lower-case word. */
  lemma CharactersAreAttributed(segs: seq<Segment>, paras: seq<string>, c: string)
    requires |segs| == |paras|
    requires forall k :: 0 <= k < |segs| ==> BuiltFrom(segs[k], paras[k])
    requires c in Characters(segs)
    ensures exists k :: 0 <= k < |segs| && segs[k].kind == Dialogue && c == ExtractSpeaker(paras[k])
    ensures c != [] && forall j :: 0 <= j < |c| ==> IsLowerWordChar(c[j])
  {
    var s :| s in segs && s.speaker != Voices.NarratorLabel && s.speaker == c;
    var k :| 0 <= k < |segs| && segs[k] == s;
    assert BuiltFrom(segs[k], paras[k]);
  }
}
