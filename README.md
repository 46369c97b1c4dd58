# Tweet analytics in Dafny

This project models the core of a small tweet-analytics library and proves properties of
that model. The library has two layers.

- **`basic_algorithms.py`** is a generic token toolkit:
  - `count_tokens` builds a frequency dictionary.
  - `find_top_k` ranks tokens by count.
  - `find_min_count` keeps tokens that meet an inclusive count threshold.
  - `calculate_tf`, `calculate_idf`, `find_salient_one` and `find_salient` form a tf-idf
    salience engine.
- **`analyze.py`** is the text pipeline that feeds the toolkit:
  - `list_clean_words` splits a tweet's abridged text on whitespace. It drops mentions,
    hashtags and links, and strips punctuation from both ends of each word.
  - `convert_case` lower-cases the words and `eliminate_stop_words` removes stop words.
  - `find_ngram` cuts sliding windows.
  - `find_top_k_ngrams`, `find_min_count_ngrams` and `find_salient_ngrams` run the pipeline
    per tweet and hand the n-grams to the toolkit.

A token is a `seq<string>`, so a word is a 1-gram. Every source function that loops becomes
a Dafny `method` with its loop and invariants. Most methods are proved equal to a
specification function; `CollectTokens` and `CountDocuments` state their resulting keys and
values outright. The lemmas then state what the source promises about those functions.

Files:
- `errors.dfy` (module `Errors`) holds the exceptions the code can raise, as a `Result` type.
- `builtins.dfy` (module `Builtins`) writes out the Python built-ins the code relies on:
  `str.split()`, `str.lower()`, list slicing, and `" ".join` (used only to state idempotence).
- `ranking.dfy` (module `Ranking`) holds the ranking order and the sort that `find_top_k`
  delegates to.
- `basic_algorithms.dfy` (module `BasicAlgorithms`) models `basic_algorithms.py`.
- `analyze.dfy` (module `Analyze`) models `analyze.py`.

Modelling choices:
- **Dictionaries.** A Python dictionary whose key order reaches the result is modelled as its
  keys in insertion order plus a `map`. This applies to the count dictionary, whose items are
  sorted. Every other dictionary is a `map`, and its loop takes the keys in an unspecified
  order (`:|`). The postconditions of `ScoreTokens`, `CountDocuments` and `TakeLogs` hold for
  every choice the loop makes, which shows that the order does not matter there.
- **Errors.** Exceptions become `Err` values:
  - `ValueError` for a negative `k` or `min_count`;
  - `KeyError` when `find_salient_one` looks up a token missing from the idf dictionary;
  - `UnboundLocalError` when `find_salient_ngrams` returns `lst` for an empty tweet list.
    The call to `find_salient` sits inside the loop, so `lst` is never bound in that case.
- **Tweet records.** A tweet is a record with the one field the pipeline reads,
  `abridged_text`.

Code behaviour a reader might not expect, all modelled as the code has it:
- `calculate_idf([])` returns `{}`. `BasicAlgorithms.Idf` ensures the empty map for an empty
  corpus.
- `find_salient_one` raises `KeyError` when a token of the document has no entry in the idf
  dictionary.
- `find_salient_ngrams([])` raises `UnboundLocalError`, because `lst` is bound only inside the
  loop.
- `find_ngram` accepts any integer `n`:
  - `n = 0` gives `len(lst) + 1` empty windows;
  - a negative `n` follows Python's slicing rules, through `Builtins.Slice`.

## Model

| member | source | states |
|---|---|---|
| BasicAlgorithms.CountTokens | basic_algorithms.py:24-32 | The dictionary is the count of each token. Its keys come in first-occurrence order, the order a dictionary filled left to right keeps. |
| BasicAlgorithms.CountsTotal | basic_algorithms.py:24-32 | The keys are exactly the input's tokens, every count is at least 1, and the counts add up to the number of tokens. |
| BasicAlgorithms.CountStep | basic_algorithms.py:26-30 | A token not yet in the dictionary is appended to the key order with count 1; a token already there keeps the key order and gains one. |
| BasicAlgorithms.CountsSize | basic_algorithms.py:24-32 | The dictionary has one key per distinct token. |
| BasicAlgorithms.FirstOccurrences | basic_algorithms.py:26-28 | The key order holds each input token exactly once, with no repetition. |
| BasicAlgorithms.FindTopK | basic_algorithms.py:47-67 | A negative k raises ValueError. Otherwise the result is the first k tokens of the sorted (token, count) pairs. |
| BasicAlgorithms.RankedItems | basic_algorithms.py:52-60 | The sorted pairs are the distinct input tokens, each with its own count, each exactly once. |
| BasicAlgorithms.ItemsContents | basic_algorithms.py:52-57 | The (token, count) list holds each distinct input token once, with its count, and nothing else. |
| BasicAlgorithms.TopKIsPrefix | basic_algorithms.py:60-65 | Element i of the result is the token of the i-th sorted pair, for the first min(k, n) pairs. |
| BasicAlgorithms.TopKSize | basic_algorithms.py:63-67 | The result has min(k, number of distinct tokens) elements, so k = 0 gives []. |
| BasicAlgorithms.TopKDistinctInputs | basic_algorithms.py:55-67 | The result holds no token twice, and every token in it occurs in the input. |
| BasicAlgorithms.TopKOrdered | basic_algorithms.py:60-65 | The result is in ranking order, and counts never increase along it. |
| BasicAlgorithms.TopKIsTop | basic_algorithms.py:60-65 | Every input token left out ranks after every token returned. |
| BasicAlgorithms.TopKOrderIndependent | basic_algorithms.py:55-60 | Sorting the dictionary's items in any order gives the same result. |
| BasicAlgorithms.RankedStrictly | basic_algorithms.py:60 | In a sorted list without repetitions, each pair ranks strictly before every later pair. |
| BasicAlgorithms.FindMinCount | basic_algorithms.py:82-93 | A negative min_count raises ValueError. Otherwise the result is exactly the tokens whose count is at least min_count (inclusive). |
| BasicAlgorithms.MinCountProperties | basic_algorithms.py:82-93 | A threshold of at most 1 keeps every distinct token. A higher threshold gives a subset. No tokens give the empty set. |
| BasicAlgorithms.MaxOver | basic_algorithms.py:112 | max() over the counts bounds every count and is attained by one of them. |
| BasicAlgorithms.MaxCountIsMax | basic_algorithms.py:112 | The largest count bounds every token's count, is at least 1 for a non-empty document, and belongs to some token. |
| BasicAlgorithms.TfValueBounds | basic_algorithms.py:118 | 0.5 + 0.5 * count / max lies in (0.5, 1.0] when 1 <= count <= max. |
| BasicAlgorithms.TfValueAtMax | basic_algorithms.py:118 | The token with the maximum count scores exactly 1.0. |
| BasicAlgorithms.TfValueMonotone | basic_algorithms.py:118 | A larger count never gives a smaller tf. |
| BasicAlgorithms.Tf | basic_algorithms.py:107-120 | The tf keys are exactly the document's tokens. |
| BasicAlgorithms.TfOverContents | basic_algorithms.py:116-118 | Filling the tf dictionary over a key sequence gives exactly those keys, each with its tf value. |
| BasicAlgorithms.TfOfCounts | basic_algorithms.py:107-118 | For a non-empty document the maximum count is positive, the tf keys are the count dictionary's keys, and each value is 0.5 + 0.5 * count / max. |
| BasicAlgorithms.TfOverIsTf | basic_algorithms.py:107-120 | For a non-empty document the maximum is positive, and the loop's dictionary equals the tf of the document. |
| BasicAlgorithms.CalculateTf | basic_algorithms.py:107-120 | The returned dictionary is the augmented tf of the document; an empty document gives {}, the caught max() failure. |
| BasicAlgorithms.TfProperties | basic_algorithms.py:107-120 | The result is empty iff the document is. Every value lies in (0.5, 1.0]. The tokens with the maximum count score 1.0, and one exists. A more frequent token never scores lower. |
| BasicAlgorithms.VocabularyMembers | basic_algorithms.py:137-140 | A token is in the vocabulary iff some document contains it. |
| BasicAlgorithms.DocFreqBounds | basic_algorithms.py:143-146 | The document frequency of a corpus token lies in [1, D], and is 0 for any other token. |
| BasicAlgorithms.DocFreqCountsDocuments | basic_algorithms.py:143-146 | The document frequency equals the number of document indices containing the token, each document counted once. |
| BasicAlgorithms.DocFreqEverywhere | basic_algorithms.py:143-146 | A token in every document has document frequency D. |
| BasicAlgorithms.Idf | basic_algorithms.py:133-152 | An empty corpus gives the empty map. |
| BasicAlgorithms.CalculateIdf | basic_algorithms.py:133-152 | The result maps every corpus token t to ln(D / df(t)), where ln is the logarithm passed in. |
| BasicAlgorithms.CollectTokens | basic_algorithms.py:137-140 | The first loop leaves one zero entry per distinct corpus token. |
| BasicAlgorithms.CountDocuments | basic_algorithms.py:143-146 | The second loop leaves each entry equal to its token's document frequency. |
| BasicAlgorithms.TakeLogs | basic_algorithms.py:149-150 | The third loop turns every frequency f into ln(D / f). |
| BasicAlgorithms.IdfOfFreqs | basic_algorithms.py:149-150 | Replacing each document frequency f by ln(D / f) gives the idf of the corpus. |
| BasicAlgorithms.AboveAdd | basic_algorithms.py:172-175 | Visiting one more token adds it to the salient set exactly when its tf-idf exceeds the threshold. |
| BasicAlgorithms.SalientOneMissing | basic_algorithms.py:173 | When a document token has no idf entry, the result is a KeyError. |
| BasicAlgorithms.SalientOneAbove | basic_algorithms.py:167-177 | When every token has an idf entry, the result is the set of tf keys whose tf * idf strictly exceeds the threshold. |
| BasicAlgorithms.FindSalientOne | basic_algorithms.py:167-177 | The result is a KeyError if some document token is missing from the idf dictionary. Otherwise it is exactly the document's tokens with tf * idf > threshold (strict). |
| BasicAlgorithms.ScoreTokens | basic_algorithms.py:172-177 | The loop over the tf dictionary raises KeyError on a missing idf entry. Otherwise it yields the tokens above the threshold, whatever the key order. |
| BasicAlgorithms.SalientOneMonotone | basic_algorithms.py:167-177 | Whether a KeyError arises does not depend on the threshold. A higher threshold gives a subset. The result holds only tokens of the document. |
| BasicAlgorithms.Salient | basic_algorithms.py:191-197 | There is one set per document, and no lookup fails. Set i is find_salient_one of document i with the idf of the whole corpus. |
| BasicAlgorithms.FindSalient | basic_algorithms.py:191-197 | The result is the list of per-document salient sets, in corpus order, with the idf computed once from the same documents. |
| BasicAlgorithms.ZeroIdfNeverSalient | basic_algorithms.py:173-174 | A token with idf 0 is never salient under a non-negative threshold. |
| BasicAlgorithms.IdfOfUbiquitous | basic_algorithms.py:143-150 | A token in every document has idf ln(D / D) = ln(1). |
| BasicAlgorithms.UbiquitousTokenNeverSalient | basic_algorithms.py:133-197 | When ln(1) = 0 and the threshold is non-negative, a token in every document is salient in none. |
| Ranking.SortCountPairs | basic_algorithms.py:60 | The sort returns a permutation of the pairs, ordered by count descending with ties broken by token order. |
| Ranking.Insert | basic_algorithms.py:60 | The result holds the pairs of the list plus the inserted pair, nothing more or less. |
| Ranking.InsertRanked | basic_algorithms.py:60 | Inserting into a ranked list keeps it ranked. |
| Ranking.RankedUnique | basic_algorithms.py:60 | Two ranked lists that are permutations of each other are equal, so the sort is determined by its input's contents. |
| Ranking.RankedSameHead | basic_algorithms.py:60 | Two non-empty ranked permutations of each other start with the same pair. |
| Ranking.RanksBeforeIrreflexive | basic_algorithms.py:60 | No pair ranks before itself. |
| Ranking.RanksBeforeTransitive | basic_algorithms.py:60 | Ranking order is transitive. |
| Ranking.RanksBeforeTotal | basic_algorithms.py:60 | Of two different pairs, one ranks before the other. |
| Ranking.LexIsStrictTotal | basic_algorithms.py:60 | The lexicographic order built from a strict total order is itself a strict total order. |
| Ranking.TokenLessIsStrictTotal | basic_algorithms.py:60 | The token order used for ties is a strict total order. |
| Builtins.Split | analyze.py:126 | str.split() yields non-empty words without whitespace. |
| Builtins.SplitJoinSpace | analyze.py:126 | Splitting non-empty whitespace-free words joined by spaces gives the words back. |
| Builtins.WordLength | analyze.py:126 | A word ends at the first whitespace or at the end of the text. |
| Builtins.LowerIdempotent | analyze.py:163 | Lower-casing twice is lower-casing once. |
| Builtins.Slice | analyze.py:197 | A slice with bounds in range is the sub-sequence; no slice is longer than the list. |
| Builtins.SliceBound | basic_algorithms.py:63 | A slice bound is clamped to [0, len], and an in-range bound is kept. |
| Analyze.LeadingPunctuationRun | analyze.py:136-137 | Every character of the leading run is punctuation, and the character after it, if any, is not: the run is maximal. |
| Analyze.DropLeadingPunctuation | analyze.py:136-137 | The leading loop removes exactly the leading punctuation run. |
| Analyze.TrailingPunctuationRun | analyze.py:140-141 | Every character of the trailing run is punctuation, and the character before it, if any, is not: the run is maximal. |
| Analyze.DropTrailingPunctuation | analyze.py:140-141 | The trailing loop removes exactly the trailing punctuation run. |
| Analyze.LeadingPunctuationUnique | analyze.py:136-137 | Any run of punctuation that stops at a non-punctuation character, or at the end, is the leading run. |
| Analyze.TrailingPunctuationUnique | analyze.py:140-141 | Any run of punctuation that stops at a non-punctuation character, or at the start, is the trailing run. |
| Analyze.ListCleanWords | analyze.py:126-148 | The result is the split words, each cleaned by the loop body; discarded words are dropped, and the order is kept. |
| Analyze.StripBounds | analyze.py:136-141 | Stripping leaves the infix between the two punctuation runs: everything before and after it is punctuation, and its first and last characters are not. |
| Analyze.CleanWordShape | analyze.py:131-146 | A kept word comes from a split word without a stop prefix, with punctuation removed at both ends. It is a contiguous infix of that word, and it is non-empty, without a stop prefix and without punctuation at either end. |
| Analyze.CleanWordOfClean | analyze.py:131-146 | A clean word passes through the loop body unchanged. |
| Analyze.CleanAllAppend | analyze.py:129-146 | Cleaning two lists of words one after the other equals cleaning their concatenation. |
| Analyze.CleanAllOrigins | analyze.py:126-148 | Each output word comes from a different split word, in increasing order, and is that word cleaned. There are at most as many outputs as split words. |
| Analyze.CleanWordsAreClean | analyze.py:126-148 | Every output word is non-empty, whitespace-free, has no stop prefix and no punctuation at either end. There are at most as many outputs as split words. |
| Analyze.CleanAllKeepsAll | analyze.py:129-146 | A list whose every word the loop body keeps as it is passes through unchanged. |
| Analyze.CleanAllOfClean | analyze.py:129-146 | A list of clean words is left unchanged. |
| Analyze.CleanWordsIdempotent | analyze.py:126-148 | Cleaning the space-joined output reproduces the output. |
| Analyze.ConvertCase | analyze.py:160-165 | The result is the input list with every word lower-cased, in order (LowerAll). |
| Analyze.LowerAllProperties | analyze.py:160-165 | Lower-casing a list twice is lower-casing it once, and lower-casing commutes with concatenation. |
| Analyze.LowerCharPunctuation | analyze.py:163 | Lower-casing a character neither creates nor removes punctuation. |
| Analyze.WithoutStopWords | analyze.py:177-183 | No stop word remains, and the result is no longer than the input. |
| Analyze.EliminateStopWords | analyze.py:177-183 | The result is the order-preserving filter of the non-stop words. |
| Analyze.WithoutStopWordsAppend | analyze.py:177-183 | The filter distributes over concatenation, so it is applied word by word, in order. |
| Analyze.WithoutStopWordsCount | analyze.py:179-181 | A stop word occurs zero times in the result; any other word occurs as often as in the input. |
| Analyze.WithoutStopWordsMultiset | analyze.py:177-183 | Every non-stop word is kept as often as it occurs; stop words occur zero times. |
| Analyze.WithoutStopWordsOfClean | analyze.py:177-183 | A list without stop words is left unchanged, so the filter is idempotent. |
| Analyze.WithoutStopWordsMembers | analyze.py:177-183 | The filter keeps only words of its input. |
| Analyze.FindNgram | analyze.py:194-199 | The result is the slices lst[i:i+n] for i in range(len(lst) - n + 1), for any integer n. |
| Analyze.NGramsWindows | analyze.py:194-199 | For n >= 1 there are max(0, L - n + 1) windows, none when L < n, and window i is lst[i..i+n] of length n. |
| Analyze.NGramsOverlap | analyze.py:194-199 | For n >= 1, consecutive windows overlap in n - 1 words. |
| Analyze.NGramsOfZero | analyze.py:194-199 | For n = 0 there are L + 1 windows, all empty. |
| Analyze.UnigramsAreWords | analyze.py:194-199 | The 1-grams are the words, one window per word. |
| Analyze.FindTopKNgrams | analyze.py:214-235 | A negative k raises ValueError. Otherwise the result is find_top_k over the concatenation of the per-tweet n-gram lists, built from cleaned, optionally lower-cased, stop-word-free words. |
| Analyze.FindMinCountNgrams | analyze.py:250-270 | A negative min_count raises ValueError. Otherwise the result is find_min_count over the same concatenation. |
| Analyze.FindSalientNgrams | analyze.py:286-303 | An empty tweet list raises UnboundLocalError. Otherwise the result is find_salient of the list of per-tweet n-gram lists, with no stop-word removal; only the last in-loop call survives. |
| Analyze.AllNGramsAppend | analyze.py:216-231 | The n-grams of two runs of tweets are the n-grams of each run, concatenated. |
| Analyze.AllNGramsWithinTweets | analyze.py:216-231 | An n-gram is counted iff it is an n-gram of one tweet's words, so no window spans two tweets. |
| Analyze.TweetWordsShape | analyze.py:218-222 | A tweet's words are non-empty with no punctuation at either end, and on the case-insensitive path they are already lower-case. |
| Analyze.CountedWordsProperties | analyze.py:218-225 | Counted words are tweet words with no punctuation at their ends and no stop words. On the case-insensitive path lower-casing comes first, so a capitalised stop word is removed too. |
| Analyze.NGramWords | analyze.py:196-197 | For n >= 1 an n-gram of a list has n words, each taken from the list. |
| Analyze.CountedNGramsShape | analyze.py:216-231 | For n >= 1 every counted n-gram has n words, none of them a stop word. |
| Analyze.SalientNGramsPerTweet | analyze.py:286-303 | There is one salient set per tweet, made of that tweet's n-grams, and a higher threshold never makes a set larger. |

## Left out

- PUNCTUATION covers only the first 256 code points of Unicode category P, minus '#', '@' and
  '&', plus the space that the joined string holds. The source builds the set from the
  Unicode database (`unicodedata.category`), which is not part of this model.
- Builtins.Lower lower-cases only ASCII letters; Python's full Unicode case mapping is not
  modelled.
- Builtins.Split splits on the ASCII whitespace characters Python accepts; other Unicode
  whitespace is not modelled.
- `util.sort_count_pairs` is not part of this model. Ranking.SortCountPairs stands for it by
  its contract: a permutation of the pairs, by count descending. Ties are broken by
  lexicographic token order, which is a choice of this model, not the library's actual
  tie-break.
- BasicAlgorithms.CalculateIdf takes `math.log` as the parameter `ln`; floating-point
  logarithms are not modelled, and no property of `ln` is assumed except where a lemma
  requires ln(1) = 0.
- BasicAlgorithms.CalculateTf computes tf, and FindSalientOne compares tf * idf > threshold,
  on exact reals; floating-point rounding is not modelled.
- The loops over dictionaries in `calculate_idf` and `find_salient_one` take keys in an
  unspecified order rather than insertion order, because their results do not depend on it.
- `list_entities`, `find_top_k_entities` and `find_min_count_entities` are left out. They
  look up nested JSON fields under a catch-all exception handler, and their counting is
  `find_top_k` and `find_min_count`, which are modelled.
- The conversion of n-gram lists into tuples is not modelled; an n-gram is one `seq<string>`
  either way.
