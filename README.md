# trex deduplication core in Dafny

This project models the near-duplicate classifier `trex_dedup` of the trex
text-analysis application (app/dedup.py), and the keyword ranking
`get_keywords` (app/clustering.py), and proves properties of the model.

`trex_dedup` works in five stages:

1. It picks a stopword set: none, NLTK's English list, or a comma-separated
   custom list (module `Cleaning`).
2. It cleans every text. Tokens whose lower-case form is a stopword are dropped,
   and the rest are re-joined with single spaces (`Cleaning`).
3. In a first pass it signs every row. The signature is a 128-slot MinHash of
   the set of words of the cleaned text. Each row is inserted into one LSH index
   under the key `str(row_id)` (`MinHash`, `Lsh`, `RowKeys`, and the class
   `Dedup.DedupIndex`).
4. In a second pass, against the complete index, it queries every row and
   removes the row's own key. It labels the row:
   - `unique` when nothing is left;
   - `exact_duplicate` when the best estimated similarity is 1.0;
   - `near_duplicate` otherwise.
5. It computes the `word_count` column, and the character counts behind the
   `entropy` column (`Scoring`).

`Dedup.TrexDedup` puts the stages together.

The imperative parts keep the source's form:
- The index is a class whose `Insert` and `Query` methods loop over the bands.
- The two passes are methods of `DedupIndex`, and their loops update the index
  and the `minhashes` map.
- The MinHash loop over a row's words is a method.

The comprehensions are functions:
- `clean_text`;
- the stopword choice;
- the counts;
- `get_keywords` (module `Keywords`).

Python's string operations are modelled in `Text`, and `Counter`/`value_counts`
in `Counting`.

Two library contracts are assumed, as stated in `MinHash` and `Lsh`:
- A MinHash signature holds, in each slot, the minimum of that slot's hash over
  the token set, or 2^32-1 when no token is smaller.
- An LSH query returns exactly the stored keys whose signatures agree with the
  query on at least one whole band.

These parts of the library are parameters:
- the hash family `h`;
- the band split `(b, r)`;
- the tokenizer `tokenize`.

## Model

| member | source | states |
|---|---|---|
| Text.LowerFacts | app/dedup.py:24-35 | `lower()`, taken on ASCII letters, leaves no upper-case letter, is idempotent, keeps length and whitespace positions, and keeps alphabetic strings alphabetic |
| Text.SplitYieldsWords | app/dedup.py:45 | every piece `str.split()` returns is non-empty and free of whitespace |
| Text.SplitJoin | app/dedup.py:35 | splitting a single-space join of whitespace-free words gives back exactly those words |
| Text.SplitOnJoin | app/dedup.py:28 | `split(',')` pieces re-joined with `,` give the reply back, and no piece contains a comma |
| Text.StripTrims | app/dedup.py:24 | `strip()` returns a slice of its input between two all-whitespace margins |
| Text.StripEnds | app/dedup.py:24 | the stripped string neither starts nor ends with whitespace |
| Counting.TallyFacts | app/dedup.py:78 | the `Counter` table has one entry per distinct item, each holding the item's number of occurrences; the counts are positive and add up to the input length |
| RowKeys.KeyRoundTrip | app/dedup.py:49-60 | `int(str(row_id)) == row_id` for every integer row id |
| RowKeys.KeyInjective | app/dedup.py:54-56 | two row ids have the same key iff they are equal |
| MinHash.EmptyIsMinSignature | app/dedup.py:46 | a fresh `MinHash(num_perm=128)` is the signature of the empty token set |
| MinHash.UpdateAddsWord | app/dedup.py:48 | `update(t)` turns the signature of a set into the signature of the set with `t` added |
| MinHash.MinSignatureUnique | app/dedup.py:45-48 | a token set has one signature only, so it does not depend on the order in which tokens are fed in |
| MinHash.JaccardOne | app/dedup.py:60-61 | the similarity estimate lies in [0, 1] and is 1.0 iff the two signatures are identical |
| Lsh.HashRanges | app/dedup.py:41 | the bands are `b` contiguous slot ranges of `r` slots each |
| Lsh.HashRangesFit | app/dedup.py:41 | bands using at most 128 slots all lie inside a signature |
| Lsh.IdenticalAreCandidates | app/dedup.py:55 | a stored signature is always a candidate of an identical query |
| Lsh.LshIndex.constructor | app/dedup.py:41 | a new index has the requested bands, is well formed and holds nothing |
| Lsh.LshIndex.Insert | app/dedup.py:49 | inserting a new key stores its signature and keeps every bucket table an exact index of the stored signatures; a key already present is refused and nothing changes |
| Lsh.InsertKeepsIndex | app/dedup.py:49 | filing a new key under each of its bands keeps the bucket tables an index of the stored signatures |
| Lsh.LshIndex.Query | app/dedup.py:55 | the union of the query's buckets is exactly the set of stored keys that share a band with the query |
| Cleaning.UseDefaultReply | app/dedup.py:24-26 | the default list is used iff the reply, stripped, is `y` or `Y`; then the stopword set is NLTK's English list |
| Dedup.NamesDistinct | app/dedup.py:57-66 | the `dup_type` column holds one of `unique`, `near_duplicate`, `exact_duplicate`, and different labels give different strings |
| Cleaning.FlagOffKeepsEveryToken | app/dedup.py:23-35 | with the stopword flag off, the stopword set is empty and cleaning keeps every token |
| Cleaning.KeptAppend | app/dedup.py:35 | cleaning works token by token and so keeps the surviving tokens in their original order |
| Cleaning.KeptCounts | app/dedup.py:35 | a token survives exactly as often as it occurs when its lower-case form is not a stopword, and never when it is one |
| Cleaning.KeptAreNotStopwords | app/dedup.py:35 | every kept token comes from the input and its lower-case form is not a stopword |
| Cleaning.CleanTextSplits | app/dedup.py:35 | splitting the cleaned text gives back exactly the kept tokens |
| Cleaning.CustomStopwordsNormalised | app/dedup.py:28-35 | custom entries are stripped and lower case; a token is dropped iff its lower-case form equals some stripped, lower-cased entry as typed |
| Cleaning.EmptyEntryKept | app/dedup.py:28-29 | an empty reply, or one ending in a comma, puts `""` among the custom stopwords, and that entry never matches a token |
| Scoring.CharCountsFacts | app/dedup.py:78 | the character counts are positive, one per distinct character, add up to the text length, and are empty only for the empty text |
| Scoring.ProbabilitiesDistribution | app/dedup.py:78 | for a non-empty text the exact quotients count/length lie in (0, 1] and sum to 1; the empty text gives none |
| Scoring.WordCountIsKeptTokens | app/dedup.py:35-82 | `word_count` equals the number of tokens cleaning kept |
| Dedup.WordSetOfClean | app/dedup.py:35-45 | the word set of a cleaned text is the set of tokens that are no stopword |
| Dedup.MinHashOf | app/dedup.py:45-48 | the build pass's inner loop produces the MinHash signature of the row's word set |
| Dedup.LinkedLookup | app/dedup.py:60 | `int(key)` of every key in the index is a row of `minhashes` whose signature is the one the index holds |
| Dedup.LinkedAdd | app/dedup.py:49-50 | a row not yet signed has no key in the index, and signing it keeps the index and `minhashes` in step |
| Dedup.DedupIndex.constructor | app/dedup.py:41-42 | the run starts with an empty index and an empty `minhashes` |
| Dedup.DedupIndex.KeyLookup | app/dedup.py:60 | every candidate key reads back through `int` as a row whose signature is the one stored under the key |
| Dedup.DedupIndex.Build | app/dedup.py:44-50 | after the build pass every row, and nothing else, is signed and indexed, and each row's signature is the MinHash of its word set |
| Dedup.DedupIndex.SigOfKey | app/dedup.py:60 | `minhashes[int(r)]` is the signature the index stores under `r` |
| Dedup.DedupIndex.MaxSimilarity | app/dedup.py:60 | the result is the similarity with some candidate and is at least the similarity with every candidate |
| Dedup.DedupIndex.CandidatesAreOthers | app/dedup.py:54-56 | the query result minus the row's own key is exactly the keys of the other rows sharing a band with it |
| Dedup.DedupIndex.MaxIsOneIffIdentical | app/dedup.py:60-64 | the best similarity is 1.0 iff some other candidate row has an identical signature |
| Dedup.DedupIndex.ClassifyRow | app/dedup.py:53-64 | one row's label is `unique` when no other row shares a band with it, `exact_duplicate` when one has an identical signature, and `near_duplicate` otherwise |
| Dedup.DedupIndex.Classify | app/dedup.py:52-66 | the classify pass appends exactly one label per row, in row order, each as above, all against the complete index |
| Dedup.OthersSymmetric | app/dedup.py:55-56 | row `b` is among `a`'s candidates iff `a` is among `b`'s |
| Dedup.SoleRowIsUnique | app/dedup.py:56-58 | a row is never its own candidate, so a table of one row is `unique` |
| Dedup.ExactIffTwin | app/dedup.py:57-62 | a row is `exact_duplicate` iff another row has an identical signature, whatever the band split |
| Dedup.NearIffBandWithoutTwin | app/dedup.py:59-64 | a row is `near_duplicate` iff another row shares a band with it and no other row has an identical signature |
| Dedup.IdenticalRowsAreExactDuplicates | app/dedup.py:44-64 | two distinct rows with identical signatures are both `exact_duplicate`, whichever comes first |
| Dedup.SameWordsAreExactDuplicates | app/dedup.py:45-62 | rows whose cleaned texts have equal word sets get identical signatures, whatever the order or repetition of words, and both are `exact_duplicate` |
| Dedup.TrexDedup | app/dedup.py:16-82 | one output row per input row, in order, carrying the cleaned text, its word-set signature, the `dup_type` string of that row's label against all signatures, the character counts and the word count |
| Keywords.KeywordTokensFiltered | app/clustering.py:37 | every counted token is lower case and alphabetic (with ASCII lower-casing) and not a stopword |
| Keywords.KeywordTokensAppend | app/clustering.py:37 | the token filter works token by token |
| Keywords.InsertByCountFacts | app/clustering.py:38 | inserting an entry by count adds exactly that entry and keeps a count-ordered table ordered |
| Keywords.SortByCountFacts | app/clustering.py:38 | ordering the frequency table by count is a permutation of it, and the result is in non-increasing count order |
| Keywords.ValueCountsRanked | app/clustering.py:38 | `value_counts` has one entry per distinct token, holding its count, in non-increasing order of count |
| Keywords.RankedPrefix | app/clustering.py:39 | a prefix of that table names distinct counted tokens in non-increasing frequency, none less frequent than a token left out |
| Keywords.HeadIsPrefix | app/clustering.py:39 | `head(n)` is a prefix of length `min(n, len)`, or `len + n` (at least 0) for negative `n` |
| Keywords.GetKeywordsFacts | app/clustering.py:18-39 | at most `topn` keywords, all lower case and alphabetic (with ASCII lower-casing), not stopwords and pairwise distinct, in non-increasing order of frequency, and no omitted token more frequent than a returned one |
| Keywords.DefaultAtMostTen | app/clustering.py:35-39 | without `topn` at most ten keywords are returned |
| Keywords.FrequenciesAreTotals | app/clustering.py:36-38 | a keyword's frequency is the sum of its frequencies in the single texts, when tokenizing the joined texts gives each text's tokens in turn |

## Left out

- NLTK's `word_tokenize` and stopword corpus are foreign code. The tokenizer is a parameter, and the English list (`stopwords.words('english')`, `STOPWORDS`) is an input set. Properties that need the tokens to be words (non-empty, no whitespace) say so in their `requires`.
- Internals of `datasketch`: the hash seeds and permutations (a hash family parameter `h`), band hashing (bands are compared by content), and how threshold 0.8 and 128 permutations give the band split. The split `(b, r)` is a parameter with `b * r <= 128`.
- Dedup.TrexDedup: the `entropy` column is modelled by its character counts and probabilities (`Scoring.CharCounts`, `Scoring.Probabilities`). The `log2` and the floating-point sum are not modelled.
- Dedup.TrexDedup: requires distinct row ids. The loader takes them from the DataFrame index (app/file_loader.py:88), and with a repeated id the library's `insert` raises. `Lsh.LshIndex.Insert` models that refusal.
- Dedup.TrexDedup: `astype(str)` is not modelled; texts are strings already.
- The prompts (`input()`), the printed messages, the plots and the files written (app/dedup.py:17-22, 68-73, 84-115). The two prompt replies are parameters.
- Text.Lower and Text.IsAlpha: `str.lower` and `str.isalpha` are modelled for ASCII letters only. `str.isspace` covers Python's full whitespace set.
- Text.LowerFacts: keeping length and keeping alphabetic strings alphabetic hold for the ASCII lower-casing modelled, not for Python's full Unicode `lower()`: `'İ'` (U+0130) passes `isalpha()` but lowers to `'i'` followed by U+0307, a combining mark that fails `isalpha()`.
- Keywords.GetKeywordsFacts: "every keyword is alphabetic" holds for the ASCII lower-casing modelled. app/clustering.py:37 tests `isalpha()` on the token before lowering it, so with Python's Unicode `lower()` the input `["İstanbul"]` passes the test and gives the keyword `i̇stanbul` (with U+0307), whose `isalpha()` is false.
- Keywords.ValueCounts: pandas does not fix the order of tokens with equal counts. The model keeps them in order of first appearance, and the contracts speak only of the count order.
- RowKeys.ParseKey: `int()` also accepts surrounding whitespace, a `+` sign and underscores. Keys made by `str()` never contain them, so only the decimal form is modelled.
- The model stores each row's signature, not the `MinHash` object. The object holds nothing else the source reads.
- main.py passes `None` as the stopword flag when the user asks for default stopwords (main.py:63). `trex_dedup` treats that as false and removes no stopwords. main.py is not part of this model. The flag is a boolean, and `Cleaning.FlagOffKeepsEveryToken` states what happens when it is false.
- Lsh.LshIndex.constructor: the band split is required to use at most 128 slots (`b * r <= 128`), which is all the library needs; how the library picks `b` and `r` is not modelled.
- Dedup.TrexDedup: an empty token set's signature has 2^32-1 in every slot, and a non-empty set whose smallest hash in some slot is 2^32-1 equals it in that slot (`MinHash.SlotIsMin` allows exactly that).
- Scoring.ProbabilitiesDistribution: the quotients `c / len(text)` are exact reals here and rounded floats in the program, so "sum to 1" holds for the model's values, while the program's float sum can differ from 1 in the last bit.
- The rest of app/clustering.py (k-means, silhouette score, word clouds, HTTP labelling), app/pipeline.py, app/file_loader.py, app/embedding.py, app/text2sql_pipeline.py and main.py are not part of this model.
