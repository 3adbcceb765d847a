/** `trex_dedup` (app/dedup.py:16-82): the two-pass MinHash/LSH duplicate
    classifier. Every row is first signed and inserted into one index under the
    key `str(row_id)`; only then is every row queried against the complete index,
    with its own key removed from the answer. A row is `unique` when nothing is
    left, `exact_duplicate` when the best estimated similarity is 1.0, and
    `near_duplicate` otherwise. */
module Dedup {
  import opened Text
  import opened RowKeys
  import opened Counting
  import opened MinHash
  import opened Lsh
  import opened Cleaning
  import opened Scoring

  datatype DupType = Unique | NearDuplicate | ExactDuplicate

  /** The string the `dup_type` column holds. */
  function Name(d: DupType): string {
    match d
    case Unique => "unique"
    case NearDuplicate => "near_duplicate"
    case ExactDuplicate => "exact_duplicate"
  }

  /** The three column strings are distinct, so the column tells the labels apart. */
  lemma NamesDistinct(a: DupType, b: DupType)
    ensures Name(a) in {"unique", "near_duplicate", "exact_duplicate"}
    ensures Name(a) == Name(b) <==> a == b
  {
    assert "unique"[0] == 'u' && "near_duplicate"[0] == 'n' && "exact_duplicate"[0] == 'e';
  }

  /** `set(clean_text.split())`. */
  function WordSet(cleanText: string): set<string> {
    set w | w in Split(cleanText)
  }

  /** The other rows whose signatures share a band with row `id`'s: the rows the
      index returns for `id` once `id`'s own key is removed. */
  function Others(id: int, sigs: map<int, Signature>, ranges: seq<(nat, nat)>): set<int>
    requires id in sigs && ValidRanges(ranges) && AllFull(sigs)
  {
    set o | o in sigs && o != id && ShareBand(sigs[o], sigs[id], ranges)
  }

  /** The label of row `id` among the rows signed `sigs`: `unique` when no other
      row shares a band with it, `exact_duplicate` when some such row has an
      identical signature, and `near_duplicate` otherwise. */
  function LabelFor(id: int, sigs: map<int, Signature>, ranges: seq<(nat, nat)>): DupType
    requires id in sigs && ValidRanges(ranges) && AllFull(sigs)
  {
    var others := Others(id, sigs, ranges);
    if others == {} then Unique
    else if exists o :: o in others && sigs[o] == sigs[id] then ExactDuplicate
    else NearDuplicate
  }

  /** Sharing a band is symmetric, so "is among the other's candidates" is too:
      the classify pass judges each pair of rows the same way from both ends. */
  lemma OthersSymmetric(a: int, b: int, sigs: map<int, Signature>, ranges: seq<(nat, nat)>)
    requires a in sigs && b in sigs && ValidRanges(ranges) && AllFull(sigs)
    ensures b in Others(a, sigs, ranges) <==> a in Others(b, sigs, ranges)
  {
    if b in Others(a, sigs, ranges) {
      var j :| 0 <= j < |ranges| && Band(sigs[b], ranges[j]) == Band(sigs[a], ranges[j]);
    }
    if a in Others(b, sigs, ranges) {
      var j :| 0 <= j < |ranges| && Band(sigs[a], ranges[j]) == Band(sigs[b], ranges[j]);
    }
  }

  /** A row never counts as its own candidate: a table of one row is `unique`. */
  lemma SoleRowIsUnique(id: int, sig: Signature, ranges: seq<(nat, nat)>)
    requires |sig| == NumPerm && ValidRanges(ranges)
    ensures LabelFor(id, map[id := sig], ranges) == Unique
  {
    assert Others(id, map[id := sig], ranges) == {};
  }

  /** A row is `exact_duplicate` exactly when some other row has an identical
      signature, whatever the band split: identical signatures agree on every
      band, so such a row is always among the candidates. */
  lemma ExactIffTwin(id: int, sigs: map<int, Signature>, ranges: seq<(nat, nat)>)
    requires id in sigs && ValidRanges(ranges) && |ranges| >= 1 && AllFull(sigs)
    ensures LabelFor(id, sigs, ranges) == ExactDuplicate <==>
              exists o :: o in sigs && o != id && sigs[o] == sigs[id]
  {
    if o :| o in sigs && o != id && sigs[o] == sigs[id] {
      assert Band(sigs[o], ranges[0]) == Band(sigs[id], ranges[0]);
      assert o in Others(id, sigs, ranges);
    }
  }

  /** A row is `near_duplicate` exactly when some other row shares a band with
      it and no other row has an identical signature. */
  lemma NearIffBandWithoutTwin(id: int, sigs: map<int, Signature>, ranges: seq<(nat, nat)>)
    requires id in sigs && ValidRanges(ranges) && |ranges| >= 1 && AllFull(sigs)
    ensures LabelFor(id, sigs, ranges) == NearDuplicate <==>
              && (exists o :: o in sigs && o != id && ShareBand(sigs[o], sigs[id], ranges))
              && (forall o :: o in sigs && o != id ==> sigs[o] != sigs[id])
  {
    ExactIffTwin(id, sigs, ranges);
    if o :| o in sigs && o != id && ShareBand(sigs[o], sigs[id], ranges) {
      assert o in Others(id, sigs, ranges);
    }
  }

  /** Two distinct rows with identical signatures are both `exact_duplicate`,
      whichever of them comes first, because every row is in the index before
      any row is classified. */
  lemma IdenticalRowsAreExactDuplicates(a: int, b: int, sigs: map<int, Signature>, ranges: seq<(nat, nat)>)
    requires a in sigs && b in sigs && a != b && sigs[a] == sigs[b]
    requires ValidRanges(ranges) && |ranges| >= 1 && AllFull(sigs)
    ensures LabelFor(a, sigs, ranges) == ExactDuplicate
    ensures LabelFor(b, sigs, ranges) == ExactDuplicate
  {
    ExactIffTwin(a, sigs, ranges);
    ExactIffTwin(b, sigs, ranges);
  }

  /** Rows whose cleaned texts have the same set of words get the same
      signature, whatever the order or repetition of the words; two such rows
      are both `exact_duplicate`. */
  lemma SameWordsAreExactDuplicates(a: int, b: int, cleanA: string, cleanB: string,
                                    sigs: map<int, Signature>, ranges: seq<(nat, nat)>, h: HashFamily)
    requires a in sigs && b in sigs && a != b
    requires ValidRanges(ranges) && |ranges| >= 1 && AllFull(sigs)
    requires IsMinSignature(sigs[a], WordSet(cleanA), h) && IsMinSignature(sigs[b], WordSet(cleanB), h)
    requires WordSet(cleanA) == WordSet(cleanB)
    ensures sigs[a] == sigs[b]
    ensures LabelFor(a, sigs, ranges) == ExactDuplicate && LabelFor(b, sigs, ranges) == ExactDuplicate
  {
    MinSignatureUnique(sigs[a], sigs[b], WordSet(cleanA), h);
    IdenticalRowsAreExactDuplicates(a, b, sigs, ranges);
  }

  /** The word set of a cleaned text is the set of tokens that are no stopword,
      so it does not depend on the order or repetition of the tokens. */
  lemma WordSetOfClean(tokens: seq<string>, stop: set<string>)
    requires AllWords(tokens)
    ensures WordSet(CleanText(tokens, stop)) == set t | t in tokens && Lower(t) !in stop
  {
    CleanTextSplits(tokens, stop);
    KeptAreNotStopwords(tokens, stop);
    forall t | t in tokens && Lower(t) !in stop ensures t in Kept(tokens, stop) {
      KeptCounts(tokens, stop, t);
      CountPositive(tokens, t);
      CountPositive(Kept(tokens, stop), t);
    }
  }

  /** The inner loop of the build pass (app/dedup.py:46-48): a fresh MinHash fed
      every token of the set, in whatever order the set yields them. The result
      is the signature of the set. */
  method MinHashOf(words: set<string>, h: HashFamily) returns (sig: Signature)
    ensures IsMinSignature(sig, words, h)
  {
    sig := EmptySignature();
    EmptyIsMinSignature(h);
    var rest := words;
    while rest != {}
      invariant rest <= words
      invariant IsMinSignature(sig, words - rest, h)
      decreases rest
    {
      var t :| t in rest;
      UpdateAddsWord(sig, words - rest, t, h);
      sig := Update(sig, t, h);
      assert (words - rest) + {t} == words - (rest - {t});
      rest := rest - {t};
    }
    assert words - rest == words;
  }

  predicate DistinctIds(ids: seq<int>) {
    forall i, j :: 0 <= i < j < |ids| ==> ids[i] != ids[j]
  }

  /** `minhashes` and the index's stored signatures describe the same rows: row
      `id` is stored under `str(id)` with its signature, and every stored key is
      some row's. */
  ghost predicate Linked(minhashes: map<int, Signature>, stored: map<string, Signature>) {
    && AllFull(minhashes)
    && (forall id :: id in minhashes ==> KeyOf(id) in stored && stored[KeyOf(id)] == minhashes[id])
    && (forall key :: key in stored ==> exists id :: id in minhashes && KeyOf(id) == key)
  }

  lemma LinkedLookup(minhashes: map<int, Signature>, stored: map<string, Signature>, key: string)
    requires Linked(minhashes, stored) && key in stored
    ensures ParseKey(key).Some? && ParseKey(key).value in minhashes
    ensures KeyOf(ParseKey(key).value) == key
    ensures minhashes[ParseKey(key).value] == stored[key]
  {
    var id :| id in minhashes && KeyOf(id) == key;
    KeyRoundTrip(id);
  }

  /** A row that is not yet in `minhashes` has no key in the index, and adding it
      to both keeps them linked. */
  lemma LinkedAdd(minhashes: map<int, Signature>, stored: map<string, Signature>, id: int, sig: Signature)
    requires Linked(minhashes, stored) && id !in minhashes && |sig| == NumPerm
    ensures KeyOf(id) !in stored
    ensures Linked(minhashes[id := sig], stored[KeyOf(id) := sig])
  {
    if KeyOf(id) in stored {
      LinkedLookup(minhashes, stored, KeyOf(id));
      KeyRoundTrip(id);
    }
    var m, s := minhashes[id := sig], stored[KeyOf(id) := sig];
    forall i | i in m ensures KeyOf(i) in s && s[KeyOf(i)] == m[i] {
      KeyInjective(i, id);
    }
  }

  /** The state the two passes share: the LSH index and the `minhashes`
      dictionary from row id to signature. */
  class DedupIndex {
    var lsh: LshIndex
    var minhashes: map<int, Signature>

    /** The index holds exactly the rows of `minhashes`, each under the key
        `str(row_id)`, and every key reads back as its row id. */
    ghost predicate Valid()
      reads this, lsh
    {
      lsh.Valid() && Linked(minhashes, lsh.stored)
    }

    /** `int(key)` recovers the row id of every key in the index, and that row's
        entry in `minhashes` is the signature the index holds for the key. */
    lemma KeyLookup(key: string)
      requires Valid() && key in lsh.stored
      ensures ParseKey(key).Some? && ParseKey(key).value in minhashes
      ensures KeyOf(ParseKey(key).value) == key
      ensures minhashes[ParseKey(key).value] == lsh.stored[key]
    {
      LinkedLookup(minhashes, lsh.stored, key);
    }

    /** `MinHashLSH(threshold=0.8, num_perm=128)` (whose band split came out as
        `b` bands of `r` slots) and `minhashes = {}`. */
    constructor (b: nat, r: nat)
      requires 1 <= b && 1 <= r && b * r <= NumPerm
      ensures Valid() && fresh(lsh)
      ensures minhashes == map[] && lsh.ranges == HashRanges(0, b, r)
    {
      lsh := new LshIndex(b, r);
      minhashes := map[];
    }

    /** The build pass (app/dedup.py:44-50): sign every row's cleaned text and
        insert it into the index under `str(row_id)`; no row is queried yet. */
    method Build(ids: seq<int>, cleaned: seq<string>, h: HashFamily)
      requires Valid() && minhashes == map[]
      requires |ids| == |cleaned| && DistinctIds(ids)
      modifies this, lsh
      ensures Valid() && lsh == old(lsh)
      ensures forall id :: id in minhashes <==> id in ids
      ensures forall i :: 0 <= i < |ids| ==>
                ids[i] in minhashes && IsMinSignature(minhashes[ids[i]], WordSet(cleaned[i]), h)
    {
      var i := 0;
      while i < |ids|
        invariant 0 <= i <= |ids|
        invariant Valid() && lsh == old(lsh)
        invariant forall id :: id in minhashes <==> id in ids[..i]
        invariant forall k :: 0 <= k < i ==>
                    ids[k] in minhashes && IsMinSignature(minhashes[ids[k]], WordSet(cleaned[k]), h)
      {
        var sig := MinHashOf(WordSet(cleaned[i]), h);
        var key := KeyOf(ids[i]);
        assert ids[i] !in minhashes by {
          assert forall k :: 0 <= k < i ==> ids[k] != ids[i];
        }
        LinkedAdd(minhashes, lsh.stored, ids[i], sig);
        var ok := lsh.Insert(key, sig);
        minhashes := minhashes[ids[i] := sig];
        assert ids[..i + 1] == ids[..i] + [ids[i]];
        i := i + 1;
      }
      assert ids[..i] == ids;
    }

    /** The signature stored under an index key, looked up as the source does:
        `minhashes[int(key)]`. */
    function SigOfKey(key: string): (sig: Signature)
      reads this, lsh
      requires Valid() && key in lsh.stored
      ensures sig == lsh.stored[key] && |sig| == NumPerm
    {
      KeyLookup(key);
      minhashes[ParseKey(key).value]
    }

    /** `max(m.jaccard(minhashes[int(r)]) for r in result)`, over the candidates
        in whatever order the set yields them. */
    method MaxSimilarity(sig: Signature, keys: set<string>) returns (best: real)
      requires Valid() && |sig| == NumPerm
      requires keys != {} && keys <= lsh.stored.Keys
      ensures exists key :: key in keys && best == Jaccard(sig, SigOfKey(key))
      ensures forall key :: key in keys ==> Jaccard(sig, SigOfKey(key)) <= best
    {
      var first :| first in keys;
      best := Jaccard(sig, SigOfKey(first));
      ghost var bestKey := first;
      var rest := keys - {first};
      ghost var seen := {first};
      while rest != {}
        invariant rest <= keys && seen == keys - rest
        invariant bestKey in seen && best == Jaccard(sig, SigOfKey(bestKey))
        invariant forall key :: key in seen ==> Jaccard(sig, SigOfKey(key)) <= best
        decreases rest
      {
        var r :| r in rest;
        var s := Jaccard(sig, SigOfKey(r));
        if s > best {
          best := s;
          bestKey := r;
        }
        rest := rest - {r};
        seen := seen + {r};
      }
    }

    /** The classify pass (app/dedup.py:52-64): query each row against the
        complete index, drop its own key, and label it. One label per row, in
        row order. */
    method Classify(ids: seq<int>) returns (labels: seq<DupType>)
      requires Valid()
      requires forall i :: 0 <= i < |ids| ==> ids[i] in minhashes
      ensures |labels| == |ids|
      ensures forall i :: 0 <= i < |ids| ==> labels[i] == LabelFor(ids[i], minhashes, lsh.ranges)
    {
      labels := [];
      var i := 0;
      while i < |ids|
        invariant 0 <= i <= |ids| && |labels| == i
        invariant forall k :: 0 <= k < i ==> labels[k] == LabelFor(ids[k], minhashes, lsh.ranges)
      {
        var dupType := ClassifyRow(ids[i]);
        labels := labels + [dupType];
        i := i + 1;
      }
    }

    /** One iteration of the classify pass (app/dedup.py:53-64) for row `id`. */
    method ClassifyRow(id: int) returns (dupType: DupType)
      requires Valid() && id in minhashes
      ensures dupType == LabelFor(id, minhashes, lsh.ranges)
    {
      var sig := minhashes[id];
      var result := lsh.Query(sig);
      result := result - {KeyOf(id)};
      CandidatesAreOthers(id);
      ghost var others := Others(id, minhashes, lsh.ranges);
      assert forall o :: o in others ==> KeyOf(o) in result;
      if result == {} {
        assert others == {};
        dupType := Unique;
      } else {
        var maxSim := MaxSimilarity(sig, result);
        MaxIsOneIffIdentical(id, result, maxSim);
        if maxSim == 1.0 {
          dupType := ExactDuplicate;
        } else {
          dupType := NearDuplicate;
        }
      }
    }

    /** The index's answer for row `id`, without `id`'s own key, is the keys of
        `Others(id)`. */
    lemma CandidatesAreOthers(id: int)
      requires Valid() && id in minhashes
      ensures Candidates(lsh.stored, lsh.ranges, minhashes[id]) - {KeyOf(id)}
              == set o | o in Others(id, minhashes, lsh.ranges) :: KeyOf(o)
    {
      var sig := minhashes[id];
      var lhs := Candidates(lsh.stored, lsh.ranges, sig) - {KeyOf(id)};
      var others := Others(id, minhashes, lsh.ranges);
      forall key | key in lhs ensures exists o :: o in others && key == KeyOf(o) {
        KeyLookup(key);
        var o := ParseKey(key).value;
        KeyInjective(o, id);
        assert o in others;
      }
      forall o | o in others ensures KeyOf(o) in lhs {
        KeyInjective(o, id);
      }
    }

    /** The best similarity among the candidates is 1.0 exactly when one of the
        other rows has an identical signature. */
    lemma MaxIsOneIffIdentical(id: int, keys: set<string>, best: real)
      requires Valid() && id in minhashes
      requires keys == set o | o in Others(id, minhashes, lsh.ranges) :: KeyOf(o)
      requires keys != {} && keys <= lsh.stored.Keys
      requires exists key :: key in keys && best == Jaccard(minhashes[id], SigOfKey(key))
      requires forall key :: key in keys ==> Jaccard(minhashes[id], SigOfKey(key)) <= best
      ensures best == 1.0 <==>
                exists o :: o in Others(id, minhashes, lsh.ranges) && minhashes[o] == minhashes[id]
    {
      var sig := minhashes[id];
      var others := Others(id, minhashes, lsh.ranges);
      var key :| key in keys && best == Jaccard(sig, SigOfKey(key));
      var o :| o in others && key == KeyOf(o);
      KeyRoundTrip(o);
      JaccardOne(sig, minhashes[o]);
      if best != 1.0 {
        forall o' | o' in others ensures minhashes[o'] != sig {
          KeyRoundTrip(o');
          JaccardOne(sig, minhashes[o']);
          assert Jaccard(sig, SigOfKey(KeyOf(o'))) <= best;
        }
      }
    }
  }

  /** A row of the input table: the `row_id` column and the text column. */
  datatype Row = Row(rowId: int, text: string)

  /** A row of the output table: the input columns plus `clean_text`,
      `dup_type`, the character counts behind `entropy`, and `word_count`. */
  datatype AnnotatedRow = AnnotatedRow(rowId: int, text: string, cleanText: string,
                                       dupType: string, charCounts: seq<nat>, wordCount: nat)

  /** The run's inputs other than the table: the stopword flag, the replies to
      the two stopword prompts, NLTK's English stopword list, and the band split
      the index derives from its threshold. */
  datatype Config = Config(stopwordFlag: bool, defaultReply: string, customReply: string,
                           english: set<string>, bands: nat, rowsPerBand: nat)

  function RowIds(table: seq<Row>): (ids: seq<int>)
    ensures |ids| == |table|
  {
    seq(|table|, i requires 0 <= i < |table| => table[i].rowId)
  }

  /** The whole pipeline: stopword set, `clean_text` column, build pass,
      classify pass, and the count columns. The signatures the index held are
      returned as a ghost result so that the labels can be stated. */
  method TrexDedup(table: seq<Row>, config: Config, tokenize: Tokenizer, h: HashFamily)
    returns (out: seq<AnnotatedRow>, ghost sigs: map<int, Signature>)
    requires DistinctIds(RowIds(table))
    requires 1 <= config.bands && 1 <= config.rowsPerBand && config.bands * config.rowsPerBand <= NumPerm
    ensures |out| == |table|
    ensures forall id :: id in sigs <==> id in RowIds(table)
    ensures ValidRanges(HashRanges(0, config.bands, config.rowsPerBand)) && AllFull(sigs)
    ensures forall i :: 0 <= i < |table| ==>
              var stop := StopwordSet(config.stopwordFlag, config.defaultReply, config.customReply, config.english);
              var clean := Clean(table[i].text, tokenize, stop);
              && table[i].rowId in sigs
              && IsMinSignature(sigs[table[i].rowId], WordSet(clean), h)
              && out[i] == AnnotatedRow(table[i].rowId, table[i].text, clean,
                                        Name(LabelFor(table[i].rowId, sigs, HashRanges(0, config.bands, config.rowsPerBand))),
                                        CharCounts(clean), WordCount(clean))
  {
    var stop := StopwordSet(config.stopwordFlag, config.defaultReply, config.customReply, config.english);
    var cleaned := seq(|table|, i requires 0 <= i < |table| => Clean(table[i].text, tokenize, stop));
    var ids := RowIds(table);
    var index := new DedupIndex(config.bands, config.rowsPerBand);
    index.Build(ids, cleaned, h);
    var labels := index.Classify(ids);
    sigs := index.minhashes;
    out := seq(|table|, i requires 0 <= i < |table| =>
                 AnnotatedRow(table[i].rowId, table[i].text, cleaned[i], Name(labels[i]),
                              CharCounts(cleaned[i]), WordCount(cleaned[i])));
  }
}
