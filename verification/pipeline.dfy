/**
 Whole-document stemming, `Tester.stems(String)`: segment the text into
 sentences, analyse and disambiguate each, and concatenate the per-sentence
 stems in sentence order.

 The sentence-boundary detector and the disambiguating sentence parser are
 not part of this model; they are the two functions of an `Analyzer`.
 */
module Pipeline {
  import opened Morph
  import opened StemExtractor

  /** The external collaborators: `segment` splits text into sentences, and
      `analyze` returns a sentence's entries, already disambiguated. */
  datatype Analyzer = Analyzer(segment: string -> seq<string>, analyze: string -> seq<Entry>)

  /** The entries of all the sentences, one after the other. */
  function AllEntries(an: Analyzer, sentences: seq<string>): seq<Entry>
  {
    if |sentences| == 0 then []
    else an.analyze(sentences[0]) + AllEntries(an, sentences[1..])
  }

  /** The stems of the sentences, sentence after sentence. There are never
      more stems than entries in all the sentences. */
  function FlattenStems(an: Analyzer, sentences: seq<string>): (r: seq<string>)
    ensures |r| <= |AllEntries(an, sentences)|
  {
    if |sentences| == 0 then []
    else SentenceStems(an.analyze(sentences[0])) + FlattenStems(an, sentences[1..])
  }

  /** `stems(String)`: the stems of a whole text, which are the stems of the
      entries of all its sentences taken in order as one sequence. */
  function Stems(an: Analyzer, text: string): (r: seq<string>)
    ensures r == SentenceStems(AllEntries(an, an.segment(text)))
  {
    FlattenIsEntryStream(an, an.segment(text));
    FlattenStems(an, an.segment(text))
  }

  /** Flattening follows the order of the sentences: the stems of two runs
      of sentences are the stems of the first run followed by those of the
      second. */
  lemma {:induction false} FlattenAppend(an: Analyzer, xs: seq<string>, ys: seq<string>)
    ensures FlattenStems(an, xs + ys) == FlattenStems(an, xs) + FlattenStems(an, ys)
    decreases |xs|
  {
    if |xs| == 0 {
      assert xs + ys == ys;
    } else {
      assert (xs + ys)[0] == xs[0];
      assert (xs + ys)[1..] == xs[1..] + ys;
      FlattenAppend(an, xs[1..], ys);
    }
  }

  /** Sentence boundaries leave no mark: the stems of a run of sentences are
      the stems of all their entries taken as one sentence. */
  lemma {:induction false} FlattenIsEntryStream(an: Analyzer, sentences: seq<string>)
    ensures FlattenStems(an, sentences) == SentenceStems(AllEntries(an, sentences))
    decreases |sentences|
  {
    if |sentences| > 0 {
      FlattenIsEntryStream(an, sentences[1..]);
      SentenceStemsAppend(an.analyze(sentences[0]), AllEntries(an, sentences[1..]));
    }
  }

  /** A document has exactly as many stems as its segmented sentences have
      entries iff every entry has a parse whose top one is not
      punctuation. */
  lemma DocumentStems(an: Analyzer, text: string)
    ensures var es := AllEntries(an, an.segment(text));
      |Stems(an, text)| == |es| <==> forall i :: 0 <= i < |es| ==> Contributes(es[i])
  {
    SentenceStemsCount(AllEntries(an, an.segment(text)));
  }

  /** A text segmented into a single sentence stems as that sentence. */
  lemma SingleSentence(an: Analyzer, text: string)
    requires |an.segment(text)| == 1
    ensures Stems(an, text) == SentenceStems(an.analyze(an.segment(text)[0]))
  {
    var ss := an.segment(text);
    assert ss[1..] == [];
  }

}
