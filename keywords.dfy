/** `get_keywords` (app/clustering.py:35-39): the `topn` most frequent
    lower-case alphabetic non-stopword tokens of a group of texts. The texts are
    joined with spaces and tokenized once; the surviving tokens are counted as
    pandas' `value_counts` does (most frequent first) and the first `topn`
    entries of that table are returned. */
module Keywords {
  import opened Text
  import opened Counting
  import opened Cleaning

  /** The default of the `topn` parameter. */
  const DefaultTopN: int := 10

  /** `[w.lower() for w in tokens if w.isalpha() and w.lower() not in STOPWORDS]`. */
  function KeywordTokens(tokens: seq<string>, stop: set<string>): seq<string> {
    if tokens == [] then []
    else
      (if IsAlpha(tokens[0]) && Lower(tokens[0]) !in stop then [Lower(tokens[0])] else [])
      + KeywordTokens(tokens[1..], stop)
  }

  predicate SortedByCount<T>(t: seq<(T, nat)>) {
    forall i, j :: 0 <= i < j < |t| ==> t[i].1 >= t[j].1
  }

  /** Places `e` before the first entry whose count is not larger than its own. */
  function InsertByCount<T>(e: (T, nat), t: seq<(T, nat)>): seq<(T, nat)> {
    if t == [] || e.1 >= t[0].1 then [e] + t else [t[0]] + InsertByCount(e, t[1..])
  }

  /** The frequency table ordered by count, largest first; entries with equal
      counts keep their order of first appearance. */
  function SortByCount<T>(t: seq<(T, nat)>): seq<(T, nat)> {
    if t == [] then [] else InsertByCount(t[0], SortByCount(t[1..]))
  }

  /** `value_counts()` of a list of tokens. */
  function ValueCounts(tokens: seq<string>): seq<(string, nat)> {
    SortByCount(Tally(tokens))
  }

  /** pandas' `head(n)`: the first `n` entries, or all but the last `-n` when
      `n` is negative. */
  function Head<T>(xs: seq<T>, n: int): seq<T> {
    if n >= 0 then (if n <= |xs| then xs[..n] else xs)
    else (if -n <= |xs| then xs[..|xs| + n] else [])
  }

  /** The tokens `get_keywords` counts for `texts`. */
  function KeywordTokensOf(texts: seq<string>, tokenize: Tokenizer, stop: set<string>): seq<string> {
    KeywordTokens(tokenize(Join(texts, ' ')), stop)
  }

  /** `get_keywords(texts, topn)` with `STOPWORDS` as `stop`. */
  function GetKeywords(texts: seq<string>, tokenize: Tokenizer, stop: set<string>,
                       topn: int := DefaultTopN): seq<string>
  {
    Keys(Head(ValueCounts(KeywordTokensOf(texts, tokenize, stop)), topn))
  }

  /** Every counted token is the lower-case form of an alphabetic token that is
      no stopword. */
  lemma {:induction false} KeywordTokensFiltered(tokens: seq<string>, stop: set<string>)
    ensures forall w :: w in KeywordTokens(tokens, stop) ==>
              IsLower(w) && IsAlpha(w) && w !in stop
  {
    if tokens != [] {
      KeywordTokensFiltered(tokens[1..], stop);
      LowerFacts(tokens[0]);
    }
  }

  /** Filtering works token by token, so it distributes over concatenation. */
  lemma {:induction false} KeywordTokensAppend(a: seq<string>, b: seq<string>, stop: set<string>)
    ensures KeywordTokens(a + b, stop) == KeywordTokens(a, stop) + KeywordTokens(b, stop)
  {
    if a != [] {
      KeywordTokensAppend(a[1..], b, stop);
      assert (a + b)[1..] == a[1..] + b;
    } else {
      assert a + b == b;
    }
  }

  lemma {:induction false} InsertByCountFacts<T>(e: (T, nat), t: seq<(T, nat)>)
    ensures multiset(InsertByCount(e, t)) == multiset(t) + multiset{e}
    ensures SortedByCount(t) ==> SortedByCount(InsertByCount(e, t))
  {
    if t == [] || e.1 >= t[0].1 {
      if SortedByCount(t) {
        SortedCons(e, t);
      }
    } else {
      var rest := InsertByCount(e, t[1..]);
      InsertByCountFacts(e, t[1..]);
      assert t == [t[0]] + t[1..];
      if SortedByCount(t) {
        assert SortedByCount(t[1..]);
        forall x | x in rest ensures x.1 <= t[0].1 {
          assert x in multiset(rest);
          if x != e {
            assert x in t[1..];
          }
        }
        SortedCons(t[0], rest);
      }
    }
  }

  /** An entry whose count is at least every count of a sorted table can go in
      front of it. */
  lemma SortedCons<T>(x: (T, nat), r: seq<(T, nat)>)
    requires SortedByCount(r)
    requires forall y :: y in r ==> y.1 <= x.1
    ensures SortedByCount([x] + r)
  {
    var s := [x] + r;
    forall i, j | 0 <= i < j < |s| ensures s[i].1 >= s[j].1 {
      assert s[j] == r[j - 1];
      if i > 0 {
        assert s[i] == r[i - 1];
      } else {
        assert r[j - 1] in r;
      }
    }
  }

  /** The ordered table is a permutation of the table and is ordered by count. */
  lemma {:induction false} SortByCountFacts<T>(t: seq<(T, nat)>)
    ensures multiset(SortByCount(t)) == multiset(t)
    ensures SortedByCount(SortByCount(t))
  {
    if t != [] {
      SortByCountFacts(t[1..]);
      InsertByCountFacts(t[0], SortByCount(t[1..]));
      assert t == [t[0]] + t[1..];
    }
  }

  /** In a table with distinct keys no entry occurs twice. */
  lemma {:induction false} DistinctKeysOnce<T>(t: seq<(T, nat)>, x: (T, nat))
    requires DistinctKeys(t)
    ensures multiset(t)[x] <= 1
  {
    if t != [] {
      var rest := t[1..];
      assert DistinctKeys(rest) by {
        forall i, j | 0 <= i < j < |rest| ensures rest[i].0 != rest[j].0 {
          assert rest[i] == t[i + 1] && rest[j] == t[j + 1];
        }
      }
      DistinctKeysOnce(rest, x);
      assert t == [t[0]] + rest;
      assert t[0] !in rest by {
        forall k | 0 <= k < |rest| ensures rest[k] != t[0] { assert rest[k] == t[k + 1]; }
      }
    }
  }

  /** A permutation of a table with distinct keys has distinct keys. */
  lemma PermutationKeepsDistinctKeys<T>(t: seq<(T, nat)>, s: seq<(T, nat)>)
    requires DistinctKeys(t) && multiset(s) == multiset(t)
    ensures DistinctKeys(s)
  {
    forall i, j | 0 <= i < j < |s| ensures s[i].0 != s[j].0 {
      DistinctKeysOnce(t, s[i]);
      assert multiset(s)[s[i]] >= 1 + (if s[j] == s[i] then 1 else 0) by {
        assert s == s[..i] + [s[i]] + s[i + 1..j] + [s[j]] + s[j + 1..];
      }
      assert s[i] in multiset(t) && s[j] in multiset(t);
      var a :| 0 <= a < |t| && t[a] == s[i];
      var b :| 0 <= b < |t| && t[b] == s[j];
      assert a != b;
    }
  }

  /** `table` is the frequency table of `toks` in `value_counts` form: one entry
      per distinct token, holding its count, ordered by count. */
  ghost predicate RankedTable(table: seq<(string, nat)>, toks: seq<string>) {
    && DistinctKeys(table)
    && SortedByCount(table)
    && CountsOf(table, toks)
    && (forall w :: w in Keys(table) <==> w in toks)
    && |table| == |set w | w in toks|
  }

  lemma ValueCountsRanked(toks: seq<string>)
    ensures RankedTable(ValueCounts(toks), toks)
  {
    var tally := Tally(toks);
    var sorted := ValueCounts(toks);
    TallyFacts(toks);
    SortByCountFacts(tally);
    PermutationKeepsDistinctKeys(tally, sorted);
    PermutationKeepsEntries(tally, sorted, toks);
    DistinctKeysCardinality(tally);
    assert (set w | w in Keys(tally)) == (set w | w in toks);
    assert |sorted| == |multiset(sorted)| == |tally|;
  }

  /** A permutation of a table has the same keys, and the same counts. */
  lemma PermutationKeepsEntries<T>(t: seq<(T, nat)>, s: seq<(T, nat)>, toks: seq<T>)
    requires multiset(s) == multiset(t)
    ensures CountsOf(t, toks) ==> CountsOf(s, toks)
    ensures forall w :: w in Keys(s) <==> w in Keys(t)
  {
    forall e | e in s ensures e in t {
      assert e in multiset(s);
    }
    forall w ensures w in Keys(s) <==> w in Keys(t) {
      if w in Keys(s) {
        var k :| 0 <= k < |s| && s[k].0 == w;
        assert s[k] in t;
        var a := IndexIn(t, s[k]);
        assert Keys(t)[a] == w;
      }
      if w in Keys(t) {
        var a :| 0 <= a < |t| && t[a].0 == w;
        assert t[a] in multiset(s);
        var k := IndexIn(s, t[a]);
        assert Keys(s)[k] == w;
      }
    }
  }

  /** The keys of a prefix of a ranked table: distinct tokens, in
      non-increasing order of frequency, none less frequent than a token left
      out. */
  lemma RankedPrefix(table: seq<(string, nat)>, toks: seq<string>, n: nat)
    requires RankedTable(table, toks) && n <= |table|
    ensures forall w :: w in Keys(table[..n]) ==> w in toks
    ensures forall i, j :: 0 <= i < j < n ==> Keys(table[..n])[i] != Keys(table[..n])[j]
    ensures forall i, j :: 0 <= i < j < n ==> Count(toks, Keys(table[..n])[i]) >= Count(toks, Keys(table[..n])[j])
    ensures forall w, i :: w in toks && w !in Keys(table[..n]) && 0 <= i < n ==>
              Count(toks, w) <= Count(toks, Keys(table[..n])[i])
  {
    var r := Keys(table[..n]);
    forall k | 0 <= k < n ensures r[k] == table[k].0 && Count(toks, r[k]) == table[k].1 {
      assert table[k] in table;
    }
    forall w | w in r ensures w in toks {
      var k :| 0 <= k < n && r[k] == w;
      assert w == Keys(table)[k];
    }
    forall w, i | w in toks && w !in r && 0 <= i < n ensures Count(toks, w) <= Count(toks, r[i]) {
      assert w in Keys(table);
      var k :| 0 <= k < |table| && table[k].0 == w;
      assert table[k] in table;
      assert k >= n;
    }
  }

  lemma HeadIsPrefix<T>(xs: seq<T>, n: int)
    ensures Head(xs, n) == xs[..|Head(xs, n)|]
    ensures |Head(xs, n)| == if n >= 0 then (if n <= |xs| then n else |xs|)
                             else (if -n <= |xs| then |xs| + n else 0)
  {
  }

  /** What `get_keywords` promises, with `toks` the counted tokens:
      - at most `topn` keywords for a non-negative `topn` (all distinct counted
        tokens when there are fewer), and pandas' negative-`head` count otherwise;
      - every keyword is a lower-case alphabetic non-stopword counted token;
      - the keywords are pairwise distinct;
      - they come in non-increasing order of frequency;
      - no counted token left out is more frequent than any keyword returned. */
  lemma GetKeywordsFacts(texts: seq<string>, tokenize: Tokenizer, stop: set<string>, topn: int)
    ensures var toks := KeywordTokensOf(texts, tokenize, stop);
            var distinct := |set w | w in toks|;
            |GetKeywords(texts, tokenize, stop, topn)| ==
              if topn >= 0 then (if topn <= distinct then topn else distinct)
              else (if -topn <= distinct then distinct + topn else 0)
    ensures forall w :: w in GetKeywords(texts, tokenize, stop, topn) ==>
              w in KeywordTokensOf(texts, tokenize, stop) && IsLower(w) && IsAlpha(w) && w !in stop
    ensures var r := GetKeywords(texts, tokenize, stop, topn);
            forall i, j :: 0 <= i < j < |r| ==> r[i] != r[j]
    ensures var r := GetKeywords(texts, tokenize, stop, topn);
            var toks := KeywordTokensOf(texts, tokenize, stop);
            forall i, j :: 0 <= i < j < |r| ==> Count(toks, r[i]) >= Count(toks, r[j])
    ensures var r := GetKeywords(texts, tokenize, stop, topn);
            var toks := KeywordTokensOf(texts, tokenize, stop);
            forall w, i :: w in toks && w !in r && 0 <= i < |r| ==> Count(toks, w) <= Count(toks, r[i])
  {
    var toks := KeywordTokensOf(texts, tokenize, stop);
    var sorted := ValueCounts(toks);
    ValueCountsRanked(toks);
    HeadIsPrefix(sorted, topn);
    var n := |Head(sorted, topn)|;
    assert GetKeywords(texts, tokenize, stop, topn) == Keys(sorted[..n]);
    RankedPrefix(sorted, toks, n);
    KeywordTokensFiltered(tokenize(Join(texts, ' ')), stop);
  }

  /** Called without `topn`, `get_keywords` returns at most ten keywords. */
  lemma DefaultAtMostTen(texts: seq<string>, tokenize: Tokenizer, stop: set<string>)
    ensures |GetKeywords(texts, tokenize, stop)| <= 10
  {
    GetKeywordsFacts(texts, tokenize, stop, DefaultTopN);
  }

  function IndexIn<T(==)>(t: seq<T>, x: T): (k: nat)
    requires x in t
    ensures k < |t| && t[k] == x
  {
    if t[0] == x then 0 else 1 + IndexIn(t[1..], x)
  }

  /** The tokens of each text, one text after another. */
  function TokensOfEach(texts: seq<string>, tokenize: Tokenizer): seq<string> {
    if texts == [] then [] else tokenize(texts[0]) + TokensOfEach(texts[1..], tokenize)
  }

  /** How often `w` is counted in each text on its own, added up over the texts. */
  function TotalCount(texts: seq<string>, tokenize: Tokenizer, stop: set<string>, w: string): nat {
    if texts == [] then 0
    else Count(KeywordTokens(tokenize(texts[0]), stop), w) + TotalCount(texts[1..], tokenize, stop, w)
  }

  /** Frequencies are totals over all the texts: when tokenizing the joined
      texts gives each text's tokens in turn (the space that joins them never
      glues two tokens together), a keyword's frequency is the sum of its
      frequencies in the single texts. */
  lemma FrequenciesAreTotals(texts: seq<string>, tokenize: Tokenizer, stop: set<string>, w: string)
    requires tokenize(Join(texts, ' ')) == TokensOfEach(texts, tokenize)
    ensures Count(KeywordTokensOf(texts, tokenize, stop), w) == TotalCount(texts, tokenize, stop, w)
  {
    TotalsOfEach(texts, tokenize, stop, w);
  }

  lemma {:induction false} TotalsOfEach(texts: seq<string>, tokenize: Tokenizer, stop: set<string>, w: string)
    ensures Count(KeywordTokens(TokensOfEach(texts, tokenize), stop), w) == TotalCount(texts, tokenize, stop, w)
  {
    if texts != [] {
      TotalsOfEach(texts[1..], tokenize, stop, w);
      KeywordTokensAppend(tokenize(texts[0]), TokensOfEach(texts[1..], tokenize), stop);
      CountAppend(KeywordTokens(tokenize(texts[0]), stop),
                  KeywordTokens(TokensOfEach(texts[1..], tokenize), stop), w);
    }
  }
}
