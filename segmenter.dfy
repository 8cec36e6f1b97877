/** The segmenter: `NovelReader.parse_text`, which cuts a text into paragraphs and turns
    each into a narrative or a dialogue segment. */
module Segmenter {
  import opened PyText
  import opened Attribution
  import Voices

  datatype Kind = Dialogue | Narrative

  /** One segment record: its kind, its speaker label, the text to speak and the paragraph
      it came from. */
  datatype Segment = Segment(kind: Kind, speaker: string, text: string, original: string)

  /** `seg` is the record `parse_text` builds for the paragraph `para`: a dialogue exactly
      when the paragraph holds two quotes, spoken by the attributed speaker with the quoted
      text; otherwise narrative, spoken by the narrator with the whole paragraph. */
  predicate BuiltFrom(seg: Segment, para: string) {
    seg.original == para
    && (seg.kind == Dialogue <==> QuoteCount(para) >= 2)
    && (seg.kind == Narrative ==> seg.speaker == Voices.NarratorLabel && seg.text == para)
    && (seg.kind == Dialogue ==> seg.speaker == ExtractSpeaker(para) && seg.text == ExtractDialogueText(para))
  }

  /** The paragraphs `parse_text` keeps of the pieces: each piece stripped, the empty
      ones dropped, in order. */
  function Kept(pieces: seq<string>): (r: seq<string>)
    ensures |r| <= |pieces|
    ensures forall k :: 0 <= k < |r| ==> r[k] != []
  {
    if pieces == [] then []
    else
      var last := Strip(pieces[|pieces| - 1]);
      Kept(pieces[..|pieces| - 1]) + (if last == [] then [] else [last])
  }

  /** Keeping one more piece appends its stripped text when that is not empty. */
  lemma KeptSnoc(pieces: seq<string>, i: nat)
    requires i < |pieces|
    ensures Kept(pieces[..i + 1]) == Kept(pieces[..i]) + (if Strip(pieces[i]) == [] then [] else [Strip(pieces[i])])
  {
    assert pieces[..i + 1][..i] == pieces[..i];
  }

  /** The paragraphs of `text`: the non-empty stripped pieces of `text.split('\n\n')`. */
  function Paragraphs(text: string): seq<string> {
    Kept(SplitParagraphs(text))
  }

  /** The positions of the pieces that `Kept` keeps. */
  function KeptPositions(pieces: seq<string>): (idx: seq<nat>)
    ensures forall k :: 0 <= k < |idx| ==> idx[k] < |pieces|
  {
    if pieces == [] then []
    else
      var n := |pieces| - 1;
      KeptPositions(pieces[..n]) + (if Strip(pieces[n]) == [] then [] else [n])
  }

  lemma {:induction false} KeptPositionsMatch(pieces: seq<string>)
    ensures |KeptPositions(pieces)| == |Kept(pieces)|
    ensures forall k :: 0 <= k < |Kept(pieces)| ==> Kept(pieces)[k] == Strip(pieces[KeptPositions(pieces)[k]])
    ensures forall k :: 0 < k < |KeptPositions(pieces)| ==> KeptPositions(pieces)[k - 1] < KeptPositions(pieces)[k]
  {
    if pieces != [] {
      var n := |pieces| - 1;
      var init := pieces[..n];
      KeptPositionsMatch(init);
      var prev := KeptPositions(init);
      assert KeptPositions(pieces) == prev + (if Strip(pieces[n]) == [] then [] else [n]);
      assert Kept(pieces) == Kept(init) + (if Strip(pieces[n]) == [] then [] else [Strip(pieces[n])]);
      forall k | 0 <= k < |prev| ensures init[prev[k]] == pieces[prev[k]] {
      }
    }
  }

  lemma {:induction false} KeptPositionsComplete(pieces: seq<string>)
    ensures forall j :: 0 <= j < |pieces| && j !in KeptPositions(pieces) ==> Strip(pieces[j]) == []
  {
    if pieces != [] {
      var n := |pieces| - 1;
      var init := pieces[..n];
      KeptPositionsComplete(init);
      var prev := KeptPositions(init);
      var idx := KeptPositions(pieces);
      assert idx == prev + (if Strip(pieces[n]) == [] then [] else [n]);
      forall j | 0 <= j < |pieces| && j !in idx ensures Strip(pieces[j]) == [] {
        if j < n {
          assert j !in prev;
          assert init[j] == pieces[j];
        }
      }
    }
  }

  /** `Kept` picks pieces in order: there are increasing positions `idx` such that the
      k-th kept paragraph is the stripped piece at `idx[k]`, and every piece not picked
      strips to nothing. */
  lemma KeptPicksInOrder(pieces: seq<string>) returns (idx: seq<nat>)
    ensures |idx| == |Kept(pieces)|
    ensures forall k :: 0 <= k < |idx| ==> idx[k] < |pieces| && Kept(pieces)[k] == Strip(pieces[idx[k]])
    ensures forall k :: 0 < k < |idx| ==> idx[k - 1] < idx[k]
    ensures forall j :: 0 <= j < |pieces| && j !in idx ==> Strip(pieces[j]) == []
  {
    idx := KeptPositions(pieces);
    KeptPositionsMatch(pieces);
    KeptPositionsComplete(pieces);
  }

  /** `parse_text`: split the text at blank lines, strip every piece, skip the empty
      ones and append one segment per remaining paragraph. */
  method ParseText(text: string) returns (segments: seq<Segment>)
    ensures |segments| == |Paragraphs(text)|
    ensures forall k :: 0 <= k < |segments| ==> BuiltFrom(segments[k], Paragraphs(text)[k])
  {
    var paragraphs := SplitParagraphs(text);
    segments := [];
    for i := 0 to |paragraphs|
      invariant |segments| == |Kept(paragraphs[..i])|
      invariant forall k :: 0 <= k < |segments| ==> BuiltFrom(segments[k], Kept(paragraphs[..i])[k])
    {
      ghost var done := Kept(paragraphs[..i]);
      KeptSnoc(paragraphs, i);
      var para := Strip(paragraphs[i]);
      if para == [] {
        continue;
      }
      var segment := BuildSegment(para);
      AppendBuilt(segments, done, segment, para);
      segments := segments + [segment];
    }
    assert paragraphs[..|paragraphs|] == paragraphs;
  }

  /** The record of one paragraph: a dialogue spoken by the attributed speaker with the
      quoted text when the paragraph holds dialogue, otherwise a narrative spoken by the
      narrator with the whole paragraph. */
  method BuildSegment(para: string) returns (segment: Segment)
    ensures BuiltFrom(segment, para)
  {
    IsDialogueIffTwoQuotes(para);
    if IsDialogue(para) {
      var speaker := ExtractSpeaker(para);
      var dialogueText := ExtractDialogueText(para);
      segment := Segment(Dialogue, speaker, dialogueText, para);
    } else {
      segment := Segment(Narrative, Voices.NarratorLabel, para, para);
    }
  }

  /** Appending a segment and its paragraph keeps the two lists in step. */
  lemma AppendBuilt(segments: seq<Segment>, paras: seq<string>, segment: Segment, para: string)
    requires |segments| == |paras| && forall k :: 0 <= k < |segments| ==> BuiltFrom(segments[k], paras[k])
    requires BuiltFrom(segment, para)
    ensures forall k :: 0 <= k < |segments| + 1 ==> BuiltFrom((segments + [segment])[k], (paras + [para])[k])
  {
  }
}
