/** Stages 1 and 2 of `trex_dedup` (app/dedup.py:23-37): choosing the stopword
    set and cleaning each text by dropping the tokens whose lower-case form is a
    stopword. */
module Cleaning {
  import opened Text
  import opened Counting

  /** NLTK's `word_tokenize`, which this model does not contain. Where a
      property needs it, the tokens are assumed to be words (non-empty, free of
      whitespace). */
  type Tokenizer = string -> seq<string>

  /** The reply to "Use default stopwords? (y/n)", as the source reads it. */
  predicate UseDefault(reply: string) {
    Lower(Strip(reply)) == "y"
  }

  /** The default list is chosen exactly when the reply, stripped, is a single
      `y` of either case; the stopword set is then NLTK's English list. */
  lemma UseDefaultReply(reply: string, customReply: string, english: set<string>)
    ensures UseDefault(reply) <==> Strip(reply) == "y" || Strip(reply) == "Y"
    ensures UseDefault(reply) ==> StopwordSet(true, reply, customReply, english) == english
  {
    LowerIsY(Strip(reply));
  }

  /** Exactly `y` and `Y` lower-case to `y`. */
  lemma LowerIsY(s: string)
    ensures Lower(s) == "y" <==> s == "y" || s == "Y"
  {
    if Lower(s) == "y" {
      assert |s| == |Lower(s)| == 1;
      assert Lower(s)[0] == LowerChar(s[0]);
      assert Lower(s)[0] == "y"[0] == 'y';
      assert s[0] == 'y' || s[0] == 'Y';
      assert s == [s[0]];
    }
    if s == "y" || s == "Y" {
      assert Lower(s)[0] == 'y';
    }
  }

  /** The comma-separated custom stopwords, each stripped and lower-cased. */
  function CustomStopwords(reply: string): set<string> {
    set w | w in SplitOn(reply, ',') :: Lower(Strip(w))
  }

  /** The stopword set: empty when the flag is off; otherwise NLTK's English
      list (`english`) when the user asks for the default, or else the custom
      stopwords typed at the second prompt. */
  function StopwordSet(flag: bool, defaultReply: string, customReply: string, english: set<string>): set<string> {
    if !flag then {}
    else if UseDefault(defaultReply) then english
    else CustomStopwords(customReply)
  }

  /** The tokens `clean_text` keeps, in their original order. */
  function Kept(tokens: seq<string>, stop: set<string>): seq<string> {
    if tokens == [] then []
    else (if Lower(tokens[0]) in stop then [] else [tokens[0]]) + Kept(tokens[1..], stop)
  }

  /** `clean_text(text)` for a text whose tokens are `tokens`. */
  function CleanText(tokens: seq<string>, stop: set<string>): string {
    Join(Kept(tokens, stop), ' ')
  }

  /** The cleaned text of a raw text. */
  function Clean(text: string, tokenize: Tokenizer, stop: set<string>): string {
    CleanText(tokenize(text), stop)
  }

  /** With the stopword flag off the set is empty and every token is kept. */
  lemma {:induction false} FlagOffKeepsEveryToken(tokens: seq<string>, defaultReply: string,
                                                  customReply: string, english: set<string>)
    ensures StopwordSet(false, defaultReply, customReply, english) == {}
    ensures Kept(tokens, StopwordSet(false, defaultReply, customReply, english)) == tokens
  {
    if tokens != [] {
      FlagOffKeepsEveryToken(tokens[1..], defaultReply, customReply, english);
      assert tokens == [tokens[0]] + tokens[1..];
    }
  }

  /** Filtering works token by token: it distributes over concatenation. Together
      with the single-token case this says the kept tokens appear in their
      original order. */
  lemma {:induction false} KeptAppend(a: seq<string>, b: seq<string>, stop: set<string>)
    ensures Kept(a + b, stop) == Kept(a, stop) + Kept(b, stop)
  {
    if a != [] {
      KeptAppend(a[1..], b, stop);
      assert (a + b)[1..] == a[1..] + b;
    } else {
      assert a + b == b;
    }
  }

  lemma KeptSingle(t: string, stop: set<string>)
    ensures Kept([t], stop) == if Lower(t) in stop then [] else [t]
  {
    assert [t][1..] == [];
  }

  /** A token survives cleaning exactly as often as it occurs when its lower-case
      form is no stopword, and not at all when it is one. */
  lemma {:induction false} KeptCounts(tokens: seq<string>, stop: set<string>, t: string)
    ensures Count(Kept(tokens, stop), t) == if Lower(t) in stop then 0 else Count(tokens, t)
    decreases |tokens|
  {
    if tokens != [] {
      var last := tokens[|tokens| - 1];
      var init := tokens[..|tokens| - 1];
      assert tokens == init + [last];
      KeptAppend(init, [last], stop);
      KeptSingle(last, stop);
      KeptCounts(init, stop, t);
      CountAppend(Kept(init, stop), Kept([last], stop), t);
      CountAppend(init, [last], t);
      assert Count([last], t) == if last == t then 1 else 0 by {
        assert [last][..0] == [];
      }
      var k := Kept([last], stop);
      assert Count(k, t) == if last == t && Lower(t) !in stop then 1 else 0 by {
        if k != [] { assert k[..0] == []; }
      }
    }
  }

  /** Every kept token's lower-case form is outside the stopword set. */
  lemma {:induction false} KeptAreNotStopwords(tokens: seq<string>, stop: set<string>)
    ensures forall t :: t in Kept(tokens, stop) ==> t in tokens && Lower(t) !in stop
  {
    if tokens != [] {
      KeptAreNotStopwords(tokens[1..], stop);
    }
  }

  /** `clean_text` followed by `str.split()` gives back exactly the kept tokens,
      provided the tokenizer yields words. */
  lemma CleanTextSplits(tokens: seq<string>, stop: set<string>)
    requires AllWords(tokens)
    ensures Split(CleanText(tokens, stop)) == Kept(tokens, stop)
  {
    KeptAreNotStopwords(tokens, stop);
    var kept := Kept(tokens, stop);
    forall i | 0 <= i < |kept| ensures IsWord(kept[i]) {
      assert kept[i] in tokens;
    }
    SplitJoin(kept);
  }

  lemma {:induction false} StripNoop(s: string)
    requires s == [] || (!IsSpace(s[0]) && !IsSpace(s[|s| - 1]))
    ensures Strip(s) == s
  {
  }

  /** Custom stopwords are normalised: every entry is lower case and has no
      surrounding whitespace, and a token is dropped exactly when its lower-case
      form equals some stripped, lower-cased entry, whatever the case of the
      token or of the entry as typed. */
  lemma CustomStopwordsNormalised(reply: string, t: string)
    ensures forall w :: w in CustomStopwords(reply) ==> Lower(w) == w && Strip(w) == w
    ensures Lower(t) in CustomStopwords(reply) <==>
              exists p :: p in SplitOn(reply, ',') && Lower(Strip(p)) == Lower(t)
  {
    forall w | w in CustomStopwords(reply) ensures Lower(w) == w && Strip(w) == w {
      var p :| p in SplitOn(reply, ',') && w == Lower(Strip(p));
      NormalisedEntry(p);
    }
  }

  lemma NormalisedEntry(p: string)
    ensures Lower(Lower(Strip(p))) == Lower(Strip(p))
    ensures Strip(Lower(Strip(p))) == Lower(Strip(p))
  {
    var s := Strip(p);
    var w := Lower(s);
    StripEnds(p);
    LowerFacts(s);
    assert s == [] || (!IsSpace(s[0]) && !IsSpace(s[|s| - 1]));
    assert w == [] || (!IsSpace(w[0]) && !IsSpace(w[|w| - 1]));
    StripNoop(w);
  }

  /** An empty custom entry stays in the set: an empty reply, or a reply that ends
      in a comma, puts `""` among the stopwords. Such an entry never matches a
      token, because a token is never empty. */
  lemma EmptyEntryKept(reply: string, t: string)
    requires reply == "" || reply[|reply| - 1] == ','
    requires IsWord(t)
    ensures "" in CustomStopwords(reply)
    ensures Lower(t) != ""
  {
    var parts := SplitOn(reply, ',');
    LastPieceAfterComma(reply);
    assert parts[|parts| - 1] in parts;
    assert Strip("") == "";
    assert Lower("") == "";
    LowerFacts(t);
  }

  lemma {:induction false} LastPieceAfterComma(s: string)
    requires s == "" || s[|s| - 1] == ','
    ensures SplitOn(s, ',')[|SplitOn(s, ',')| - 1] == ""
  {
    if s != [] {
      var rest := SplitOn(s[1..], ',');
      if |s| == 1 {
        assert rest == [""];
      } else {
        LastPieceAfterComma(s[1..]);
      }
    }
  }
}
