/**
 The stem-extraction policy of `Tester.sentenceStems`: from a disambiguated
 sentence, one stem per token whose top-ranked parse is not punctuation, in
 token order.
 */
module StemExtractor {
  import opened Wrappers
  import opened Morph

  /** True when the entry yields a stem: it has a parse and the top-ranked
      one is not punctuation. */
  predicate Contributes(e: Entry)
  {
    |e.parses| > 0 && e.parses[0].pos != PUNC
  }

  /** The record an entry yields, read off its top-ranked parse only. */
  function EntryRecord(e: Entry): (r: Option<StemRecord>)
    ensures r.Some? <==> Contributes(e)
  {
    if |e.parses| == 0 then None
    else
      var top := e.parses[0];
      if top.pos == PUNC then None
      else if top.pos == UNK then Some(StemRecord(top.surface, top.pos))
      else Some(StemRecord(top.lemmaForm, top.pos))
  }

  /** The stems one entry adds to the output: none or one. */
  function EntryStems(e: Entry): (r: seq<string>)
    ensures |r| == (if Contributes(e) then 1 else 0)
  {
    match EntryRecord(e)
    case None => []
    case Some(rec) => [Render(rec)]
  }

  /** `sentenceStems`: the stems of the entries, in entry order; at most
      one stem per entry. */
  function SentenceStems(es: seq<Entry>): (r: seq<string>)
    ensures |r| <= |es|
  {
    if |es| == 0 then []
    else EntryStems(es[0]) + SentenceStems(es[1..])
  }

  /** A sentence has exactly one stem per entry iff every entry has a parse
      and no top-ranked parse is punctuation. */
  lemma {:induction false} SentenceStemsCount(es: seq<Entry>)
    ensures |SentenceStems(es)| == |es| <==> forall i :: 0 <= i < |es| ==> Contributes(es[i])
    decreases |es|
  {
    if |es| > 0 {
      SentenceStemsCount(es[1..]);
      assert forall i :: 1 <= i < |es| ==> es[i] == es[1..][i - 1];
    }
  }

  /** The loop of `sentenceStems`, walking the entries and appending a stem
      for each contributing one. */
  method ExtractStems(es: seq<Entry>) returns (stems: seq<string>)
    ensures stems == SentenceStems(es)
  {
    stems := [];
    var i := 0;
    while i < |es|
      invariant 0 <= i <= |es|
      invariant stems == SentenceStems(es[..i])
    {
      var e := es[i];
      if |e.parses| > 0 {
        if e.parses[0].pos != PUNC {
          var top := e.parses[0];
          if top.pos == UNK {
            stems := stems + [top.surface + [SEP] + top.pos];
          } else {
            stems := stems + [top.lemmaForm + [SEP] + top.pos];
          }
        }
      }
      assert es[..i + 1][..i] == es[..i];
      SentenceStemsSnoc(es[..i + 1]);
      i := i + 1;
    }
    assert es[..i] == es;
  }

  /** Stemming distributes over concatenation of entry sequences: nothing is
      reordered, merged or dropped across the boundary. */
  lemma {:induction false} SentenceStemsAppend(s: seq<Entry>, t: seq<Entry>)
    ensures SentenceStems(s + t) == SentenceStems(s) + SentenceStems(t)
    decreases |s|
  {
    if |s| == 0 {
      assert s + t == t;
    } else {
      assert (s + t)[1..] == s[1..] + t;
      SentenceStemsAppend(s[1..], t);
    }
  }

  /** Positions of the contributing entries, in increasing order. */
  function KeptIndices(es: seq<Entry>): (r: seq<nat>)
    ensures forall k :: 0 <= k < |r| ==> r[k] < |es|
    decreases |es|
  {
    if |es| == 0 then []
    else
      var r0 := KeptIndices(es[..|es| - 1]);
      if Contributes(es[|es| - 1]) then r0 + [|es| - 1] else r0
  }

  /** The kept positions are exactly those of the contributing entries,
      each once and in increasing order. */
  lemma {:induction false} KeptIndicesExact(es: seq<Entry>)
    ensures forall k :: 0 <= k < |KeptIndices(es)| ==> Contributes(es[KeptIndices(es)[k]])
    ensures forall i :: 0 <= i < |es| && Contributes(es[i]) ==> i in KeptIndices(es)
    ensures forall j, k :: 0 <= j < k < |KeptIndices(es)| ==> KeptIndices(es)[j] < KeptIndices(es)[k]
    decreases |es|
  {
    if |es| > 0 {
      var n := |es| - 1;
      var init := es[..n];
      KeptIndicesExact(init);
      var ks0, ks := KeptIndices(init), KeptIndices(es);
      assert ks == ks0 + (if Contributes(es[n]) then [n] else []);
      forall k | 0 <= k < |ks| ensures Contributes(es[ks[k]]) {
        if k < |ks0| {
          assert ks[k] == ks0[k] && init[ks0[k]] == es[ks0[k]];
        }
      }
      forall i | 0 <= i < |es| && Contributes(es[i]) ensures i in ks {
        if i < n {
          assert init[i] == es[i];
          assert i in ks0;
        }
      }
    }
  }

  /** The output lists, position by position, the rendered record of each
      contributing entry, in entry order. */
  lemma {:induction false} SentenceStemsPositional(es: seq<Entry>)
    ensures |SentenceStems(es)| == |KeptIndices(es)|
    ensures forall k :: 0 <= k < |KeptIndices(es)| ==>
      var rec := EntryRecord(es[KeptIndices(es)[k]]);
      rec.Some? && SentenceStems(es)[k] == Render(rec.value)
    decreases |es|
  {
    if |es| > 0 {
      var n := |es| - 1;
      SentenceStemsPositional(es[..n]);
      PositionalStep(es);
    }
  }

  /** The inductive step of `SentenceStemsPositional`: from the sentence
      without its last entry to the whole sentence. */
  lemma PositionalStep(es: seq<Entry>)
    requires |es| > 0
    requires var init := es[..|es| - 1];
      |SentenceStems(init)| == |KeptIndices(init)| &&
      forall k :: 0 <= k < |KeptIndices(init)| ==>
        var rec := EntryRecord(init[KeptIndices(init)[k]]);
        rec.Some? && SentenceStems(init)[k] == Render(rec.value)
    ensures |SentenceStems(es)| == |KeptIndices(es)|
    ensures forall k :: 0 <= k < |KeptIndices(es)| ==>
      var rec := EntryRecord(es[KeptIndices(es)[k]]);
      rec.Some? && SentenceStems(es)[k] == Render(rec.value)
  {
    var n := |es| - 1;
    var init, last := es[..n], es[n];
    var r0, ks0 := SentenceStems(init), KeptIndices(init);
    var r, ks := SentenceStems(es), KeptIndices(es);
    SentenceStemsSnoc(es);
    assert ks == ks0 + (if Contributes(last) then [n] else []);
    forall k | 0 <= k < |ks|
      ensures var rec := EntryRecord(es[ks[k]]); rec.Some? && r[k] == Render(rec.value)
    {
      if k < |ks0| {
        assert r[k] == r0[k] && ks[k] == ks0[k];
        assert init[ks0[k]] == es[ks0[k]];
      } else {
        assert ks[k] == n;
      }
    }
  }

  /** The stems of a sentence are those of all but its last entry, then
      those of the last. */
  lemma SentenceStemsSnoc(es: seq<Entry>)
    requires |es| > 0
    ensures SentenceStems(es) == SentenceStems(es[..|es| - 1]) + EntryStems(es[|es| - 1])
  {
    var init, last := es[..|es| - 1], es[|es| - 1];
    assert es == init + [last];
    SentenceStemsAppend(init, [last]);
    SentenceStemsSingle(last);
  }

  /** A sentence of one entry has that entry's stems. */
  lemma SentenceStemsSingle(e: Entry)
    ensures SentenceStems([e]) == EntryStems(e)
  {
    assert [e][1..] == [];
  }

  /** The stems of an entry followed by more entries. */
  lemma SentenceStemsCons(e: Entry, t: seq<Entry>)
    ensures SentenceStems([e] + t) == EntryStems(e) + SentenceStems(t)
  {
    assert ([e] + t)[0] == e;
    assert ([e] + t)[1..] == t;
  }

  /** Splits the stems of a sentence around one of its entries. */
  lemma SplitAt(es: seq<Entry>, i: nat)
    requires i < |es|
    ensures SentenceStems(es) ==
      SentenceStems(es[..i]) + EntryStems(es[i]) + SentenceStems(es[i + 1..])
  {
    var left, right := es[..i], es[i + 1..];
    assert es == left + ([es[i]] + right);
    SentenceStemsAppend(left, [es[i]] + right);
    SentenceStemsCons(es[i], right);
  }

  /** An entry with no parse, or whose top-ranked parse is punctuation, can
      be removed from the sentence without changing the stems. */
  lemma EntryIgnored(es: seq<Entry>, i: nat)
    requires i < |es| && !Contributes(es[i])
    ensures SentenceStems(es[..i] + es[i + 1..]) == SentenceStems(es)
  {
    SplitAt(es, i);
    SentenceStemsAppend(es[..i], es[i + 1..]);
  }

  /** Only the top-ranked parse of each entry is consulted: two sentences
      whose entries agree on having a parse and on the top one stem alike,
      whatever the lower-ranked parses are. */
  lemma {:induction false} TopParseOnly(es: seq<Entry>, fs: seq<Entry>)
    requires |es| == |fs|
    requires forall i :: 0 <= i < |es| ==>
      (|es[i].parses| == 0 <==> |fs[i].parses| == 0)
    requires forall i :: 0 <= i < |es| && |es[i].parses| > 0 ==>
      es[i].parses[0] == fs[i].parses[0]
    ensures SentenceStems(es) == SentenceStems(fs)
    decreases |es|
  {
    if |es| > 0 {
      assert EntryRecord(es[0]) == EntryRecord(fs[0]);
      TopParseOnly(es[1..], fs[1..]);
    }
  }

  /** An entry whose top parse is unknown to the lexicon yields its surface
      form tagged `Unk`, in its place between the stems of the entries before
      and after it. */
  lemma UnknownStem(es: seq<Entry>, i: nat)
    requires i < |es| && |es[i].parses| > 0 && es[i].parses[0].pos == UNK
    ensures SentenceStems(es) ==
      SentenceStems(es[..i]) + [es[i].parses[0].surface + "_Unk"] + SentenceStems(es[i + 1..])
  {
    SplitAt(es, i);
    var top := es[i].parses[0];
    assert top.surface + [SEP] + top.pos == top.surface + "_Unk";
  }

  /** An entry whose top parse is neither punctuation nor unknown yields its
      dictionary lemma and part of speech, in its place between the stems of
      the entries before and after it. */
  lemma KnownStem(es: seq<Entry>, i: nat)
    requires i < |es| && |es[i].parses| > 0
    requires es[i].parses[0].pos != PUNC && es[i].parses[0].pos != UNK
    ensures var top := es[i].parses[0];
      SentenceStems(es) ==
        SentenceStems(es[..i]) + [top.lemmaForm + "_" + top.pos] + SentenceStems(es[i + 1..])
  {
    SplitAt(es, i);
  }

  /** The stem of a single-parse entry whose parse is neither punctuation
      nor unknown. */
  lemma KnownEntry(p: Parse)
    requires p.pos != PUNC && p.pos != UNK
    ensures EntryStems(Entry([p])) == [p.lemmaForm + "_" + p.pos]
  {
  }

  /** The worked example "Ali eve gitti.": three words and a full stop. */
  lemma AliEveGitti()
    ensures SentenceStems([
      Entry([Parse("Ali", "Noun", "Ali")]),
      Entry([Parse("ev", "Noun", "eve")]),
      Entry([Parse("git", "Verb", "gitti")]),
      Entry([Parse(".", PUNC, ".")])
    ]) == ["Ali_Noun", "ev_Noun", "git_Verb"]
  {
    var e0, e1, e2, e3 :=
      Entry([Parse("Ali", "Noun", "Ali")]), Entry([Parse("ev", "Noun", "eve")]),
      Entry([Parse("git", "Verb", "gitti")]), Entry([Parse(".", PUNC, ".")]);
    var s3 := [e3];
    var s2 := [e2] + s3;
    var s1 := [e1] + s2;
    var s0 := [e0] + s1;
    assert SentenceStems(s3) == [] by {
      SentenceStemsCons(e3, []);
      assert [e3] + [] == s3;
    }
    assert SentenceStems(s2) == ["git_Verb"] by {
      SentenceStemsCons(e2, s3);
      KnownEntry(e2.parses[0]);
      assert "git" + "_" + "Verb" == "git_Verb";
      assert ["git_Verb"] + [] == ["git_Verb"];
    }
    assert SentenceStems(s1) == ["ev_Noun", "git_Verb"] by {
      SentenceStemsCons(e1, s2);
      KnownEntry(e1.parses[0]);
      assert "ev" + "_" + "Noun" == "ev_Noun";
      assert ["ev_Noun"] + ["git_Verb"] == ["ev_Noun", "git_Verb"];
    }
    assert SentenceStems(s0) == ["Ali_Noun", "ev_Noun", "git_Verb"] by {
      SentenceStemsCons(e0, s1);
      KnownEntry(e0.parses[0]);
      assert "Ali" + "_" + "Noun" == "Ali_Noun";
      assert ["Ali_Noun"] + ["ev_Noun", "git_Verb"] == ["Ali_Noun", "ev_Noun", "git_Verb"];
    }
    assert s0 == [e0, e1, e2, e3];
  }

}
