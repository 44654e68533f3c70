# intentify — a verified model of the intent-classification pipeline

intentify turns a text file of customer-contact sentences into a dictionary of
intents. Each intent is a short summary label, and it maps to the group of
sentences that carry that intent. The pipeline reads and deduplicates the
corpus (`get_sentences`). It normalizes every sentence (`preprocess_sentences`)
and embeds the normalized text. It clusters the embeddings, picks a
representative sentence per cluster (`get_labels`), and groups the original
sentences by cluster under the summary of each cluster's representative
(`classify_sentences`).

This project models the discrete part of that pipeline in Dafny and proves
what the code promises about it. The machine-learning pieces are parameters
of the model:

- the sentence embedding is `embed: string -> E`, for an arbitrary type `E`;
- the centroid-plus-cosine score is `similarity(members, e)`, a `real`;
- the clustering result is an input sequence of cluster ids, one per sentence;
- the summarizer is `summarize: string -> string`;
- the stopword set, the lemmatizer and Python's `\w` are fields of a
  `Normalizer`;
- the file system is `readLines: string -> Option<seq<string>>`, where `None`
  stands for any failure to open or read the file.

Python iterates over a `set` in an arbitrary order. `get_labels` and the
intents loop of `classify_sentences` therefore take that order as an explicit
argument `order`: a duplicate-free list of exactly the distinct cluster ids.
Every result of `get_labels` is independent of it. The intents map depends on
it only when two clusters have the same summary.

Files, one module each:

- `collections.dfy` (`Collections`): sequence helpers such as `Elems`, `NoDup`,
  `IndicesOf` (`np.where(labels == c)[0]`) and `Select` (fancy indexing).
- `text.dfy` (`Text`): the Python string primitives the code uses. These are
  `str.isspace`, `str.lower` (on ASCII and Latin-1), `str.strip`, `str.split()`
  and `" ".join`.
- `get_data.dfy` (`GetData`): `get_sentences`.
- `preprocess.dfy` (`Preprocess`): `preprocess_sentences`.
- `labeling.dfy` (`Labeling`): `get_labels`.
- `classify.dfy` (`Classify`): `classify_sentences`.

The deletion step of the normalizer keeps word characters and whitespace
(`[^\w\s]`). `\w` is wider than "alphanumeric": it also keeps `_`. The model
follows the code, and `\w` is the `isWordChar` parameter.

## Model

| member | source | states |
|---|---|---|
| Classify.ClassifySentences | src/app/classify.py:18-76 | Empty input gives `{}`. Otherwise the result is the stage-by-stage `Classification`. It has at most as many intents as distinct cluster ids, and every intent's value is the group of some cluster id. |
| Classify.GroupByCluster | src/app/classify.py:55-58 | The grouping loop builds exactly `Groups`: one entry per distinct id, holding the original sentences of that id in input order. |
| Classify.CollectIntents | src/app/classify.py:70-74 | The intents loop over `order` builds `AssembleIntents`: each id stores its group under its label, and later ids overwrite earlier ones. |
| Classify.GroupStep | src/app/classify.py:56-58 | Handling sentence `i` appends it to the group of `cluster_labels[i]` and leaves every other group unchanged. |
| Classify.SentenceInOwnGroupOnly | src/app/classify.py:56-58 | Sentence `i` appears in the group of its own id, at the position of `i` among that id's indices, and its index is in no other id's index list. |
| Classify.GroupsCoverIds | src/app/classify.py:55-58 | The group keys are exactly the distinct ids. Every group is non-empty and lists its members in increasing input order. |
| Classify.GroupsPartition | src/app/classify.py:55-58 | The group sizes, summed over all distinct ids, equal the number of sentences, so the groups partition the input. |
| Classify.SumCountsTotal | src/app/classify.py:56-58 | Summing each id's number of occurrences over a duplicate-free list that covers all ids counts every label exactly once. |
| Classify.IntentKeys | src/app/classify.py:70-74 | A summary is an intent key if and only if some visited id has that label. |
| Classify.LastClusterWins | src/app/classify.py:74 | Each intent holds the group of the last visited id that has its label; no later id has that label. |
| Classify.IntentsAreGroups | src/app/classify.py:71-74 | Every intent's value is exactly one visited cluster's group, so groups are never merged. |
| Classify.CollisionKeepsLater | src/app/classify.py:74 | Two ids visited as `a`, `b` with the same label give the single intent `label -> group of b`. |
| Classify.IntentCount | src/app/classify.py:70-76 | There are at most as many intents as visited ids, and exactly as many when their labels are pairwise distinct. |
| Classify.FallbackLabel | src/app/classify.py:72-73 | An id without a representative is labelled by summarizing "No representative sentence". |
| Classify.EveryIdHasRepresentative | src/app/classify.py:47-73 | In a full run every cluster id has a representative, so its label is the summary of that representative. |
| Preprocess.PreprocessSentences | src/app/preprocess.py:13-22 | The output has one entry per input at the same position, and entry `i` is the normalized form of sentence `i` alone. |
| Preprocess.RemovePunctuation | src/app/preprocess.py:18 | The output is no longer than the input. Each of its characters is a word or whitespace character of the input, and every such character of the input occurs in it. A string made only of those characters is returned unchanged. |
| Preprocess.PunctuationDeleted | src/app/preprocess.py:18 | Deletion without substitution: removal maps a concatenation to the concatenation of the results. A word or whitespace character is kept as it is and any other character becomes nothing, which fixes the kept characters, their number and their order. |
| Preprocess.KeptPositions | src/app/preprocess.py:20 | The kept positions increase, point at tokens that are not stopwords, and include every token that is not a stopword. |
| Preprocess.TokensAreLowerWords | src/app/preprocess.py:18-19 | Every token before lemmatization is non-empty, has no whitespace, consists of word characters only and is lower case. |
| Preprocess.StopwordsRemovedIgnoringCase | src/app/preprocess.py:18-20 | Lowercasing comes first, so no surviving token is a stopword in any capitalization. |
| Preprocess.LemmasOfKeptTokens | src/app/preprocess.py:20 | The lemmas are, in token order, the lemmas of exactly the tokens that are not stopwords. |
| Preprocess.PositionsBounded | src/app/preprocess.py:20 | A strictly increasing list of positions below `n` has at most `n` entries, so filtering never adds tokens. |
| Preprocess.AllStopwordsNormalizeEmpty | src/app/preprocess.py:18-21 | A sentence whose every token is a stopword normalizes to "". |
| Preprocess.NoWordCharsNormalizeEmpty | src/app/preprocess.py:18-21 | A sentence without word characters, such as "!!!", has no tokens and normalizes to "". |
| Preprocess.NormalizedSingleSpaced | src/app/preprocess.py:21 | If the lemmatizer returns non-empty, whitespace-free words, the output has no leading, trailing or doubled spaces, and splitting it gives back the lemmas. |
| Labeling.GetLabels | src/app/labeling.py:7-15 | There is exactly one entry per distinct cluster id, and each entry is that id's `Representative`. |
| Labeling.ArgMax | src/app/labeling.py:13 | `np.argmax` returns an index whose score is at least every other score and strictly greater than every earlier one. |
| Labeling.ClosestMember | src/app/labeling.py:10-13 | The chosen index belongs to the cluster. |
| Labeling.ClosestMemberIsFirstMax | src/app/labeling.py:10-13 | The chosen member scores at least as high as every member of its cluster and strictly higher than every earlier member, so the first maximum wins a tie. |
| Labeling.SingletonRepresentative | src/app/labeling.py:10-14 | The representative of a one-member cluster is that sentence, stripped. |
| Labeling.RepresentativeFromOwnCluster | src/app/labeling.py:10-14 | The representative is the stripped sentence of a member of its own cluster, and it has no leading or trailing whitespace. |
| GetData.GetSentences | src/app/get_data.py:3-15 | `lines` are the stripped lines of the file at the given path, or at `data/contact_data.txt` when none is given. `sentences` holds each distinct line exactly once and nothing else, with `len(sentences) <= len(lines)`. A failed read gives two empty lists. |
| GetData.Deduplicate | src/app/get_data.py:14 | `list(set(lines))`: the output has no duplicates, the same elements as `lines`, and as many entries as `lines` has distinct elements. |
| GetData.IdenticalLines | src/app/get_data.py:11-14 | A file of identical lines keeps every copy in `lines` and yields exactly one distinct sentence. |
| Collections.IndicesOf | src/app/labeling.py:10 | `np.where(labels == c)[0]`: an increasing list of exactly the indices whose label is `c`. |
| Collections.IndicesOfNonEmpty | src/app/labeling.py:10-11 | The index list of `c` is non-empty if and only if `c` occurs. |
| Collections.SingletonIndices | src/app/labeling.py:10 | When only index `j` carries `c`, the index list of `c` is `[j]`. |
| Collections.ElemsCard | src/app/get_data.py:14 | A list has at least as many entries as distinct elements, with equality exactly when it has no duplicates. |
| Text.LowerChar | src/app/preprocess.py:18 | Lowercasing a character leaves no upper-case letter, fixes every other character and keeps whitespace as whitespace. |
| Text.Lower | src/app/preprocess.py:18 | `str.lower` keeps the length and the position of every character, leaves no upper-case letter, and returns an already lower-case string unchanged. |
| Text.Strip | src/app/get_data.py:11 | `str.strip` returns a string with no leading or trailing whitespace, no longer than its input; `Text.StripIsSlice` pins its value. |
| Text.StripIsSlice | src/app/get_data.py:11 | The stripped string is a slice of the input with only whitespace cut off at either end. |
| Text.StripIdempotent | src/app/labeling.py:14 | Stripping twice is stripping once, so stripping the already stripped corpus again changes nothing. |
| Text.SplitTokens | src/app/preprocess.py:19 | `str.split()` yields non-empty, whitespace-free tokens made of characters of the input. |
| Text.SplitAllSpace | src/app/preprocess.py:19 | A whitespace-only string splits into no tokens. |
| Text.SplitJoin | src/app/preprocess.py:19-21 | Splitting the `" ".join` of well-formed tokens gives the tokens back. |
| Text.JoinSingleSpaced | src/app/preprocess.py:21 | Joining well-formed tokens gives a string whose only whitespace is single spaces between words. |

## Left out

- The Streamlit UI (`src/app/app.py`): sliders, plots, upload handling and the JSON caches are user interface and file I/O.
- Clustering (`src/app/cluster.py`): it wraps a foreign agglomerative-clustering call. Its output, one cluster id per sentence, is an input here. The `granularity` threshold only feeds that call, so it is not modelled.
- Embedding (`src/app/embeddings.py`) and summarization (`src/app/summarize_rake.py`, `src/app/summarize_transformers.py`): foreign model calls, modelled as the parameters `embed` and `summarize`.
- The centroid mean and cosine similarity at `src/app/labeling.py:12-13`: floating point over foreign arrays, modelled as the abstract score `similarity`. NaN scores and NumPy's handling of them are not modelled.
- The nltk stopword corpus and WordNet lemmatizer (`src/app/preprocess.py:14-15`): parameters of the `Normalizer`. Python's Unicode `\w` is the `isWordChar` parameter.
- Text.Lower: lowercases ASCII and Latin-1 letters only. Python's full Unicode case mapping, including mappings that change a string's length, is not modelled.
- Python's `set` and `dict` iteration order: an explicit `order` argument, a duplicate-free list of the distinct ids. `Deduplicate` keeps first occurrences, and no contract depends on that choice.
- Classify.ClassifySentences: requires one cluster id per sentence, as the clustering step produces, instead of modelling a clustering call that returns a differently sized array.
- The `show_some` test stubs (`src/app/classify.py:16,24-67`): dead code while `show_some = 0`.
- The `__main__` block (`src/app/classify.py:79-139`): printing and the metadata counts of the report.
- `src/app/config.py` holds constants only and is not part of this model.
- GetData.GetSentences: every exception from opening or reading the file is one `None` outcome of `readLines`. The kind of error and text decoding are not modelled.
