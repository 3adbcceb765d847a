/** Stage 5 of `trex_dedup` (app/dedup.py:77-82): the per-row quality columns.
    `word_count` is the number of whitespace-separated words of the cleaned text.
    For `entropy` the model keeps the integer part of `shannon_entropy`, the
    character counts of `Counter(text)` and the probabilities made from them; the
    logarithms and the floating-point sum are not modelled. */
module Scoring {
  import opened Text
  import opened Counting
  import opened Cleaning

  /** `Counter(text).values()`: how often each distinct character occurs, in
      order of first appearance. */
  function CharCounts(text: string): seq<nat> {
    Counts(Tally(text))
  }

  /** `[c / len(text) for c in Counter(text).values()]`. An empty text has no
      counts, so the comprehension is empty and never divides. */
  function Probabilities(text: string): seq<real> {
    var cs := CharCounts(text);
    if |text| == 0 then [] else Scaled(cs, |text|)
  }

  function Scaled(cs: seq<nat>, n: nat): (ps: seq<real>)
    requires n > 0
    ensures |ps| == |cs|
  {
    if cs == [] then [] else [cs[0] as real / n as real] + Scaled(cs[1..], n)
  }

  function SumReal(xs: seq<real>): real {
    if xs == [] then 0.0 else xs[0] + SumReal(xs[1..])
  }

  /** `lambda x: len(x.split())`. */
  function WordCount(cleanText: string): nat {
    |Split(cleanText)|
  }

  /** The character counts are positive, one per distinct character, and add
      up to the length of the text; an empty text has none. */
  lemma CharCountsFacts(text: string)
    ensures Sum(CharCounts(text)) == |text|
    ensures forall i :: 0 <= i < |CharCounts(text)| ==> CharCounts(text)[i] > 0
    ensures |CharCounts(text)| == |set c | c in text|
    ensures CharCounts(text) == [] <==> text == ""
  {
    var t := Tally(text);
    TallyFacts(text);
    forall i | 0 <= i < |t| ensures t[i].1 > 0 {
      assert t[i] in t;
    }
    DistinctKeysCardinality(t);
    assert (set c | c in Keys(t)) == (set c | c in text);
    if text != "" {
      assert text[0] in Keys(t);
    }
  }

  lemma {:induction false} ScaledSum(cs: seq<nat>, n: nat)
    requires n > 0
    ensures SumReal(Scaled(cs, n)) == Sum(cs) as real / n as real
  {
    if cs != [] {
      ScaledSum(cs[1..], n);
    }
  }

  /** For a non-empty text the probabilities lie in (0, 1] and add up to one; an
      empty text gives an empty list (entropy 0). */
  lemma ProbabilitiesDistribution(text: string)
    ensures text == "" ==> Probabilities(text) == []
    ensures text != "" ==> SumReal(Probabilities(text)) == 1.0
    ensures forall i :: 0 <= i < |Probabilities(text)| ==> 0.0 < Probabilities(text)[i] <= 1.0
  {
    if text != "" {
      var cs, n := CharCounts(text), |text|;
      assert Probabilities(text) == Scaled(cs, n);
      CharCountsFacts(text);
      assert SumReal(Scaled(cs, n)) == 1.0 by {
        ScaledSum(cs, n);
        FractionBounds(Sum(cs), n);
      }
      forall i | 0 <= i < |cs| ensures 0.0 < Scaled(cs, n)[i] <= 1.0 {
        ScaledAt(cs, n, i);
        SumBounds(cs, i);
        FractionBounds(cs[i], n);
      }
    }
  }

  lemma FractionBounds(x: nat, n: nat)
    requires 0 < x <= n
    ensures 0.0 < x as real / n as real <= 1.0
    ensures x == n ==> x as real / n as real == 1.0
  {
  }

  lemma {:induction false} ScaledAt(cs: seq<nat>, n: nat, i: nat)
    requires n > 0 && i < |cs|
    ensures Scaled(cs, n)[i] == cs[i] as real / n as real
  {
    if i > 0 {
      ScaledAt(cs[1..], n, i - 1);
    }
  }

  lemma {:induction false} SumBounds(cs: seq<nat>, i: nat)
    requires i < |cs|
    ensures cs[i] <= Sum(cs)
  {
    if i > 0 {
      SumBounds(cs[1..], i - 1);
    }
  }

  /** `word_count` is the number of tokens `clean_text` kept, because splitting a
      single-space join of words returns those words. */
  lemma WordCountIsKeptTokens(tokens: seq<string>, stop: set<string>)
    requires AllWords(tokens)
    ensures WordCount(CleanText(tokens, stop)) == |Kept(tokens, stop)|
  {
    CleanTextSplits(tokens, stop);
  }
}
