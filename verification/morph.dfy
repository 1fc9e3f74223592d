/**
 The analyzer's output as the tester sees it, and the stem record the tester
 produces from it.

 A parse carries the dictionary lemma (`lemmaForm`; `lemma` is a Dafny keyword), the string form of its primary part of
 speech and the surface form of the token. An entry is one token of a
 sentence with its parses ranked best first by the disambiguator.
 */
module Morph {
  import opened Wrappers

  datatype Parse = Parse(lemmaForm: string, pos: string, surface: string)

  datatype Entry = Entry(parses: seq<Parse>)

  /** String form of the punctuation part of speech. */
  const PUNC: string := "Punc"

  /** String form of the part of speech given to tokens missing from the lexicon. */
  const UNK: string := "Unk"

  /** Separator between the text and the tag of a rendered stem. */
  const SEP: char := '_'

  /** One stem: the lemma (or the surface form of an unknown token) and the
      part-of-speech tag. */
  datatype StemRecord = StemRecord(text: string, tag: string)

  /** The serialised form `<text>_<tag>`, with no escaping. */
  function Render(r: StemRecord): string
  {
    r.text + [SEP] + r.tag
  }

  /** Position of the last occurrence of `c` in `s`, if any. */
  function LastIndexOf(c: char, s: string): (r: Option<nat>)
    ensures r.None? <==> c !in s
    ensures r.Some? ==> r.value < |s| && s[r.value] == c && c !in s[r.value + 1..]
    decreases |s|
  {
    if |s| == 0 then None
    else if s[|s| - 1] == c then Some(|s| - 1)
    else
      var r := LastIndexOf(c, s[..|s| - 1]);
      assert r.Some? ==> s[r.value + 1..] == s[..|s| - 1][r.value + 1..] + [s[|s| - 1]];
      assert r.None? ==> s == s[..|s| - 1] + [s[|s| - 1]];
      r
  }

  /** Reads a rendered stem back, splitting at the last separator: the tag is
      what follows it and the text is everything before it. */
  function ReadRecord(s: string): Option<StemRecord>
  {
    match LastIndexOf(SEP, s)
    case None => None
    case Some(i) => Some(StemRecord(s[..i], s[i + 1..]))
  }

  /** A rendered stem whose tag has no separator reads back as the same
      record, whatever its text holds. */
  lemma ReadRender(r: StemRecord)
    requires SEP !in r.tag
    ensures ReadRecord(Render(r)) == Some(r)
  {
    var s := Render(r);
    var n := |r.text|;
    assert s[n] == SEP;
    assert s[n + 1..] == r.tag;
    var i := LastIndexOf(SEP, s).value;
    assert forall j :: n < j < |s| ==> s[j] == r.tag[j - n - 1];
    assert i == n;
    assert s[..n] == r.text;
  }

  /** Whatever reads as a record is that record's rendering, and only strings
      with no separator at all fail to read. */
  lemma RenderRead(s: string)
    ensures ReadRecord(s).None? <==> SEP !in s
    ensures ReadRecord(s).Some? ==> Render(ReadRecord(s).value) == s
    ensures ReadRecord(s).Some? ==> SEP !in ReadRecord(s).value.tag
  {
    match LastIndexOf(SEP, s)
    case None =>
    case Some(i) =>
      assert s == s[..i] + [SEP] + s[i + 1..];
  }

}
