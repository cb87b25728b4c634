# Naive Bayes text classification, modelled in Dafny

This project models the in-memory core of a C++ text classifier for the
Reuters-21578 collection. The model covers:

- **Corpus preparation.** Special HTML sequences are replaced in place. Document
  ids, train/test splits and topic lists are read from the SGML header lines. Each
  document is then routed to the train or the test set when exactly one target
  topic remains.
- **Token normalisation.** A `strtok`-style splitter, punctuation stripping, lower
  casing, stopword removal and a cut at the stemmer's index. The tokenizer keeps
  counters and two term-count maps.
- **The multinomial Naive Bayes classifier.** Class priors, per-class
  "mega-documents", add-one smoothed likelihoods, and the arg-max of log posterior
  scores.
- **Mutual-information feature selection.** The 2×2 contingency table per word,
  the mutual-information sum, top-k selection per class, and in-place pruning of
  the training samples.
- **Evaluation metrics.** Per-class, micro and macro precision, recall and F-beta.
- **Small helpers.** `one_of`, the sorted-merge `intersect`, the class-name printer
  and the command-line argument check.

Modules follow the source files:

| module | source |
|---|---|
| `Defs` | `src/defs.cpp` |
| `Text` | character and string helpers: `std::string::find`, `substr` and `size_t` arithmetic |
| `Util` | `src/util.cpp`, `include/util.hpp` |
| `Tokenizer` | `src/tokenizer.cpp` |
| `DocPreprocessor` | `src/doc_preprocessor.cpp` |
| `Parser` | `src/parser.cpp` |
| `ConstructDatasets` | `src/main_construct_datasets.cpp` |
| `ClassifierArgs` | `src/main_classifier.cpp` |
| `NaiveBayes` | `include/naive_bayes_classifier.hpp` |
| `FeatureSelection` | `include/feature_selection.hpp` |
| `Metrics` | `include/metrics.hpp` |
| `Collections` | shared helpers: map sums, subsequences, the erase-remove idiom |

Modelling choices:

- **Numbers.** Probabilities are `real`; the ratios the code forms are exact
  rationals. `std::log` and `std::log2` are parameters of type `real -> real` and
  are never interpreted.
- **Classes and arrays.** A source object whose fields change is a Dafny `class`:
  `NaiveBayes.Classifier` and `Tokenizer.Tokenizer`. A buffer the code rewrites in
  place is an `array`. The loops of the source are methods with invariants, each
  proved equal to a specification function, and the properties are lemmas about
  those functions.
- **The stemmer and the stopword list.** The Porter stemmer is a parameter that
  returns an end index. The stopword list is a set passed to the tokenizer's
  constructor. `Tokenizer.IsStopword` is membership in that set, which is what
  `std::binary_search` on the sorted list decides.
- **Undefined behaviour and asserts.** Where the C++ has undefined behaviour, the
  model returns `None`. This covers the unbounded scan of `remove_punctuation` and
  everything that normalizes through it (`normalize`, `normalize_all`,
  `get_doc_terms`), `front()` of an empty heap and `atoi` overflow. The failing
  `assert`s of `text_between_tags` and of topic parsing (src/parser.cpp:148, 195)
  also give `None`. The `assert`s that samples and labels have the same length
  (include/feature_selection.hpp:44, include/naive_bayes_classifier.hpp:188)
  become preconditions of `FeatureSelection.MutualInfo` and
  `NaiveBayes.Classifier.Fit`. The stopword-file `assert` (src/tokenizer.cpp:71)
  goes with the file load, which is not modelled.
- **`size_t` arithmetic.** Where the code relies on wrap-around (`npos + k`,
  `end - beg`), the model computes modulo 2^64.

Where a reader would expect other behaviour, the model follows the code:

- The documentation of `normalize` (include/tokenizer.hpp:104-107) says that
  punctuation at the beginning and end of a token is removed. Read literally, that
  makes a punctuation-only token `""`. The front scan of the code
  (src/tokenizer.cpp:50-52) runs past the end of such a token instead. So
  `Tokenizer.Tokenizer.Normalize` is `None` there, and `StripPunctuation` is the
  corrected scan.
- A `top_k` above the vocabulary size has no documented meaning. The code
  (include/feature_selection.hpp:144-145) then reads `front()` of an emptied heap,
  and the model returns `None`.

## Model

| member | source | states |
|---|---|---|
| Defs.ClassName | src/defs.cpp:6-25 | each class prints as a name of at least three characters drawn from lower-case letters and `-` |
| Defs.ClassNameInjective | src/defs.cpp:7-24 | two classes print the same name exactly when they are the same class |
| Text.Find | src/parser.cpp:36-40 | `find` returns the first position at or after `from` where the pattern occurs, and `None` (npos) exactly when there is none |
| Text.Substr | src/parser.cpp:42-43 | `substr(pos, n)` fails exactly when `pos` is past the end; otherwise it is the slice clamped to the end of the string |
| Text.AddSize | src/parser.cpp:38 | `size_t` addition: the sum modulo 2^64 |
| Text.SubSize | src/parser.cpp:43 | `size_t` subtraction: the difference modulo 2^64 |
| Text.Lower | src/tokenizer.cpp:83 | `tolower` on each character: same length, no upper-case letter, alphanumerics stay alphanumeric |
| Parser.QuotedField | src/parser.cpp:34-45 | the text after the field name up to the next quote (or to the end). It fails exactly when the wrapped start index lies past the end of the line |
| Parser.Atoi | src/parser.cpp:45 | a value, when there is one, lies in the `int` range |
| Parser.AtoiOfDigits | src/parser.cpp:45 | on a string of digits, `atoi` gives its decimal value, or `None` when that overflows `int` |
| Parser.GetDocId | src/parser.cpp:34-46 | no id when the quoted field cannot be cut out of the line; an id is an `int` |
| Parser.GetDocIdWithoutField | src/parser.cpp:34-46 | without `NEWID="` the start wraps to index 6: no id on a line shorter than 6, otherwise `atoi` of the text from index 6 to the next quote or the end |
| Parser.GetDocIdRoundTrip | src/parser.cpp:34-45 | a header with `NEWID="` followed by the decimal digits of n and a quote yields id n |
| Parser.GetDocType | src/parser.cpp:60-77 | `TRAIN` gives Train, `TEST` gives Test, and any other quoted value gives Other |
| Parser.TextBetweenTags | src/parser.cpp:138-155 | `""` without the begin tag. Fails when the end tag is missing (the assert). Otherwise the text from after the begin tag up to the end tag, or to the end when the end tag comes first (wrapped length) |
| Parser.TopicClass | src/parser.cpp:197-210 | a topic name maps to a target class only when it is that class's printed name |
| Parser.TopicClassOfClassName | src/parser.cpp:198-210 | the printed name of every class, Other included, maps back to that class |
| Parser.Topics | src/parser.cpp:182-215 | topics are produced exactly when the `<D>` names are, one class per name, in order |
| Parser.TopicsOfLine | src/parser.cpp:182-215 | the tag-scanning loop, with its `size_t` wrap-around, computes `Topics` |
| Parser.TopicsOfTopicLine | src/parser.cpp:182-215 | on `<TOPICS><D>n1</D>…</TOPICS>` with well-formed names, the result is n1, n2, … mapped to their classes, in order |
| Util.CString | src/util.cpp:9 | the C string seen by `strtok`: the prefix before the first NUL |
| Util.Split | src/util.cpp:4-17 | the tokens are the maximal delimiter-free runs of the C string. The buffer keeps its length, and only delimiter positions may become NUL |
| Util.TokensWellFormed | src/util.cpp:9-14 | every token is non-empty and holds no delimiter |
| Util.TokensConcat | src/util.cpp:9-14 | the tokens concatenated are the input with its delimiters deleted |
| Util.TokensOfDelimitersOnly | src/util.cpp:9-10 | empty input, or input made only of delimiters, gives no tokens |
| Util.TokensOfJoin | src/util.cpp:9-14 | splitting non-empty delimiter-free words joined by a delimiter gives back the words |
| Util.OneOf | include/util.hpp:39-47 | true exactly when the value is an element of the range |
| Util.Intersect | include/util.hpp:70-89 | writes the merge result at `out` and returns its end; every other cell of the output is unchanged |
| Util.MergedNonDecreasing | include/util.hpp:76-87 | on ascending inputs the output is ascending |
| Util.MergedSubsequence | include/util.hpp:77-86 | the output is a subsequence of each input, so it is no longer than the shorter one |
| Util.MergedIsMultisetIntersection | include/util.hpp:77-81 | on ascending inputs the output is the multiset intersection of the inputs |
| Util.MergedMembership | include/util.hpp:76-87 | on ascending inputs a value is written exactly when it occurs in both |
| Tokenizer.Replace | src/tokenizer.cpp:36-39 | `std::replace`: same length, each `from` becomes `to`, and nothing else changes |
| Tokenizer.Erase | src/tokenizer.cpp:40 | erase-remove of one character: it is gone, all others stay in order |
| Tokenizer.StripQuotes | src/tokenizer.cpp:36-40 | after the first erasure no `"`, `,`, `<`, `>` or `'` is left |
| Tokenizer.StripPunctuation | src/tokenizer.cpp:32-59 | no quote-like character is left. A non-empty result starts and ends with an alphanumeric. The result is empty exactly when the quote-free token has no alphanumeric |
| Tokenizer.RemovePunctuation | src/tokenizer.cpp:32-59 | the index loops fail (the front scan leaves the string) exactly when the quote-free token is non-empty without an alphanumeric. Otherwise they compute `StripPunctuation` |
| Tokenizer.PunctuationOnlyToken | src/tokenizer.cpp:42-52 | `"!!!"` passes the emptiness check yet has no alphanumeric, so the front scan leaves the string |
| Tokenizer.StripPunctuationDeletes | src/tokenizer.cpp:36-56 | the result is obtained from the token by deleting characters |
| Tokenizer.StripPunctuationIdempotent | src/tokenizer.cpp:32-59 | stripping twice is stripping once |
| Tokenizer.RawTokens | src/tokenizer.cpp:20-21 | the whitespace tokens are non-empty and hold no whitespace |
| Tokenizer.Numbered | src/tokenizer.cpp:24-26 | pair i holds token i and position i |
| Tokenizer.TransformStrings | src/tokenizer.cpp:97-99 | `std::transform` in place with a step that may fail: fails exactly when f fails on some element; otherwise element i becomes f of element i |
| Tokenizer.TransformWords | src/tokenizer.cpp:113-117 | as `TransformStrings` on the words, the positions kept |
| Tokenizer.FilterKeepsPositionsIncreasing | src/tokenizer.cpp:119-124 | dropping empty terms keeps positions strictly increasing |
| Tokenizer.TermsCharacterization | src/tokenizer.cpp:113-124 | the kept terms are exactly the non-empty normalized tokens, each with its own position, in increasing position order |
| Tokenizer.NonEmptyCharacterization | src/tokenizer.cpp:101-102 | erasing `""` keeps order and exactly the non-empty strings |
| Tokenizer.Increment | src/tokenizer.cpp:111 | `++m[w]` adds one to w's count (from 0 when absent) and changes no other entry |
| Tokenizer.AddAllCounts | src/tokenizer.cpp:109-111 | after counting a word list, every word's count grows by its number of occurrences |
| Tokenizer.CountAll | src/tokenizer.cpp:109-111 | the `for_each` counting loop computes `AddAll` |
| Tokenizer.StemPrefix | src/tokenizer.cpp:89-90 | the cut is a prefix of the word, of length end index + 1 when the index lies inside the word |
| Tokenizer.Tokenizer.constructor | include/tokenizer.hpp:161-164 | both term maps start empty and all counters at zero |
| Tokenizer.Tokenizer.Tokenize | src/tokenizer.cpp:18-30 | the numbered whitespace tokens; only `total_unnormalized_tokens` changes, growing by their number |
| Tokenizer.Tokenizer.NormalizeStopwordOrStem | src/tokenizer.cpp:79-93 | normalizing is undefined exactly when punctuation removal runs off the token. Otherwise a stopword normalizes to `""`, and any word to a prefix of its lower-case stripped form, cut after the stemmer's index |
| Tokenizer.Tokenizer.NormalizeCharacters | src/tokenizer.cpp:81-83 | a normalized token has no quote-like character and no upper-case letter |
| Tokenizer.Tokenizer.NormalizeAll | src/tokenizer.cpp:95-103 | undefined exactly when some token's punctuation removal runs off it; otherwise the normal forms of the tokens in order, without the empty ones |
| Tokenizer.Tokenizer.GetDocTerms | src/tokenizer.cpp:105-135 | undefined exactly when some raw token's punctuation removal runs off it; the raw tokens are counted either way. Otherwise returns the document's terms. The surviving terms are counted into the second map. `total_normalized_tokens` grows by the number of terms, and the term counters become the sizes of the maps |
| Tokenizer.Tokenizer.DocTermsCharacterization | src/tokenizer.cpp:107-124 | a document's terms are exactly its tokens' non-empty normal forms at their original positions, strictly increasing |
| Tokenizer.Tokenizer.DocTermsOfBlank | src/tokenizer.cpp:107-124 | a blank document has no terms |
| Tokenizer.WordsOfNumbered | src/tokenizer.cpp:24-26 | dropping the positions gives back the tokens |
| Tokenizer.TokensWellFormed | src/tokenizer.cpp:20-26 | every numbered token is non-empty and free of whitespace |
| Tokenizer.TermCountsAfterCounting | src/tokenizer.cpp:126-128 | a word is counted exactly when it was before or occurs in the list, and its count grows by its occurrences |
| Collections.EraseIf | src/tokenizer.cpp:119-124 | the erase-remove loop keeps exactly the wanted elements, in order |
| DocPreprocessor.TableEntries | src/doc_preprocessor.cpp:9-24 | the table maps `&lt;` to `<`, `&amp;` to `&` and `&#5;` to character 5 |
| DocPreprocessor.TableSymbolsWellFormed | src/doc_preprocessor.cpp:11-22 | every sequence in the table starts with `&`, ends with `;` and is at least four characters long |
| DocPreprocessor.ReplaceAt | src/doc_preprocessor.cpp:35-39 | one occurrence becomes |s|−1 spaces followed by the mapped character; length and every other character unchanged |
| DocPreprocessor.ReplaceAtShrinks | src/doc_preprocessor.cpp:33-40 | each replacement lowers the number of non-space characters, so the inner loop ends |
| DocPreprocessor.ReplaceAllOf | src/doc_preprocessor.cpp:33-40 | after the inner loop the sequence no longer occurs; length unchanged; each character is kept, a space, or the mapped character |
| DocPreprocessor.ReplaceAllOfAbsent | src/doc_preprocessor.cpp:33 | a document without the sequence is unchanged |
| DocPreprocessor.AmpersandTwice | src/doc_preprocessor.cpp:33-40 | `&amp;amp;` becomes eight spaces followed by `&` |
| DocPreprocessor.ConvertAll | src/doc_preprocessor.cpp:26-42 | converting with every table entry keeps the length, and each character is kept, a space, or a table value |
| DocPreprocessor.ConvertAllStep | src/doc_preprocessor.cpp:28-41 | one more table entry applies its inner loop to the result so far |
| DocPreprocessor.ReplaceOccurrence | src/doc_preprocessor.cpp:35-39 | the in-place writes compute `ReplaceAt` |
| DocPreprocessor.ReplaceAllOccurrences | src/doc_preprocessor.cpp:33-40 | the in-place `while` loop computes `ReplaceAllOf` |
| DocPreprocessor.ConvertHtmlSpecialChars | src/doc_preprocessor.cpp:26-42 | the in-place conversion, over the table in any iteration order, computes `ConvertAll` |
| DocPreprocessor.LastSymbolGone | src/doc_preprocessor.cpp:28-41 | the last sequence handled does not occur in the result |
| ConstructDatasets.SingleClassIff | src/main_construct_datasets.cpp:39-47 | a document is kept with class c exactly when c is a target class occurring once and every other class listed is Other |
| ConstructDatasets.SingleClassExamples | src/main_construct_datasets.cpp:40-47 | `[]` and `[Earn, Earn]` are dropped; `[Earn, Other]` is kept as Earn |
| ConstructDatasets.RouteDocument | src/main_construct_datasets.cpp:34-61 | one loop step routes one more id |
| ConstructDatasets.RouteFile | src/main_construct_datasets.cpp:33-62 | the loop over a file's ids adds exactly that file's kept documents |
| ConstructDatasets.DocsFromParsed | src/main_construct_datasets.cpp:28-63 | the loop over files computes `RouteAll`; docs and classes end with the same keys, for train and for test |
| ConstructDatasets.RouteAllConsistent | src/main_construct_datasets.cpp:50-60 | over any list of files, docs and classes have the same keys and every stored class is a target class |
| ConstructDatasets.RouteOneFile | src/main_construct_datasets.cpp:33-61 | a document lands in the train (test) maps exactly when it is Train (Test) typed with a single target class; its text and that class are stored |
| ClassifierArgs.FindFirstNotOf | src/main_classifier.cpp:111-112 | a found position is at or after the start and holds a character outside the set, and every character before it from the start is in the set |
| ClassifierArgs.FindFirstNotOfNone | src/main_classifier.cpp:111-112 | npos exactly when every character from the start is in the set |
| ClassifierArgs.CorrectArgs | src/main_classifier.cpp:98-115 | false unless argc is 4 or 6. With 4 arguments, true exactly for `--fit`/`--predict`. With 6, true exactly for `--fit`, then `--num-features`, then a string of digits |
| ClassifierArgs.CorrectArgsExamples | src/main_classifier.cpp:108-114 | `--predict` with six arguments is rejected; an empty feature count is accepted |
| NaiveBayes.Vocabulary | include/naive_bayes_classifier.hpp:130 | the words that are keys of some sample, and only those |
| NaiveBayes.ClassCounts | include/naive_bayes_classifier.hpp:195-197 | the keys are the labels that occur, each counted as often as it occurs |
| NaiveBayes.Priors | include/naive_bayes_classifier.hpp:191-201 | the keys are the labels that occur; each value is its frequency / n and lies in (0, 1] |
| NaiveBayes.PriorsSumToOne | include/naive_bayes_classifier.hpp:191-201 | for a non-empty label list the priors sum to 1 |
| NaiveBayes.CountLabels | include/naive_bayes_classifier.hpp:195-197 | the `++m_prior[c]` loop computes the label counts |
| NaiveBayes.DivideCounts | include/naive_bayes_classifier.hpp:198-201 | dividing in place: every entry divided by n, the same keys |
| NaiveBayes.MegaDocs | include/naive_bayes_classifier.hpp:205-216 | no mega-document is empty; positive counts stay positive |
| NaiveBayes.MegaDocsClasses | include/naive_bayes_classifier.hpp:205-216 | a class has a mega-document exactly when some non-empty sample carries that label |
| NaiveBayes.MegaDocsWords | include/naive_bayes_classifier.hpp:210-215 | a word is in a class's mega-document exactly when some sample of that class has it |
| NaiveBayes.MegaDocsCounts | include/naive_bayes_classifier.hpp:214 | each mega-document count is the sum of that word's counts over the class's samples |
| NaiveBayes.AddSampleWords | include/naive_bayes_classifier.hpp:210-215 | the inner loop adds one sample into its class's mega-document |
| NaiveBayes.BuildMegaDocs | include/naive_bayes_classifier.hpp:205-216 | the nested loop computes `MegaDocs` |
| NaiveBayes.TotalWordCount | include/naive_bayes_classifier.hpp:224-228 | `accumulate` gives the sum of the counts |
| NaiveBayes.SmoothLikelihoods | include/naive_bayes_classifier.hpp:220-236 | exactly the (word, class) pairs of the mega-documents are stored, each as (count + 1) / (total + dictionary size) |
| NaiveBayes.FittedLikelihoodKeys | include/naive_bayes_classifier.hpp:192-234 | after `fit`, `likelihood[w][c]` exists exactly when some sample labelled c has w; earlier entries are gone |
| NaiveBayes.LikelihoodInUnit | include/naive_bayes_classifier.hpp:229-234 | with a non-empty dictionary every likelihood lies in (0, 1] |
| NaiveBayes.VocabularyLikelihoodInUnit | include/naive_bayes_classifier.hpp:224-234 | when the dictionary is the training vocabulary, every likelihood lies in (0, 1] |
| NaiveBayes.EmptyDictionaryLikelihood | include/naive_bayes_classifier.hpp:224-234 | with the dictionary left empty, one sample {7: 1} of class 0 gives likelihood 2 |
| NaiveBayes.CollectVocabulary | include/feature_selection.hpp:47-53 | the loop collects exactly the vocabulary |
| NaiveBayes.PartialScoreClosedForm | include/naive_bayes_classifier.hpp:256-267 | a class's score is its log prior plus its log-likelihood once per occurrence in the class list |
| NaiveBayes.PartialScoreAbsent | include/naive_bayes_classifier.hpp:247-267 | a class outside the class list scores its log prior alone |
| NaiveBayes.LogLikelihoodEmpty | include/naive_bayes_classifier.hpp:257-267 | an empty sample adds nothing |
| NaiveBayes.LogPriors | include/naive_bayes_classifier.hpp:247-251 | the posterior starts with the log of every prior, on the prior's keys |
| NaiveBayes.SampleLogLikelihood | include/naive_bayes_classifier.hpp:257-267 | the word loop sums count × log p, with p the stored likelihood or 1/|dict| |
| NaiveBayes.AddWordTerms | include/naive_bayes_classifier.hpp:256-268 | a non-empty sample adds its log-likelihood to the class's entry, creating it at 0 when absent; an empty one changes nothing |
| NaiveBayes.NextClass | include/naive_bayes_classifier.hpp:256-268 | one turn of the class loop keeps the posterior equal to the partial scores |
| NaiveBayes.ArgMax | include/naive_bayes_classifier.hpp:271-275 | `max_element` gives a key of largest value |
| NaiveBayes.KeysOf | include/naive_bayes_classifier.hpp:173-176 | the class list holds each prior key exactly once |
| NaiveBayes.KeySet | include/naive_bayes_classifier.hpp:178-181 | the dictionary is the set of likelihood words |
| NaiveBayes.Classifier.Default | include/naive_bayes_classifier.hpp:68 | a default-constructed classifier has empty dictionary, class list, prior and likelihood |
| NaiveBayes.Classifier.constructor | include/naive_bayes_classifier.hpp:168-182 | both maps are stored unchanged; the class list is the prior's keys and the dictionary the likelihood's words |
| NaiveBayes.Classifier.Fit | include/naive_bayes_classifier.hpp:184-239 | the prior becomes `Priors(y)` and the likelihood the smoothed table of the new mega-documents, smoothed with the old dictionary size; dictionary and class list untouched |
| NaiveBayes.Classifier.FitWithVocabulary | include/naive_bayes_classifier.hpp:184-239 | as `fit`, with the dictionary refreshed to the training vocabulary and the class list to the new classes, so every likelihood lies in (0, 1] |
| NaiveBayes.Classifier.Predict | include/naive_bayes_classifier.hpp:241-277 | returns a scored class whose score is at least every other scored class's |
| NaiveBayes.Classifier.HighestPriorWins | include/naive_bayes_classifier.hpp:247-267 | with an empty class list (right after `fit` on a default-constructed classifier) and an increasing log, the class predicted has the highest prior |
| NaiveBayes.Classifier.PredictAll | include/naive_bayes_classifier.hpp:279-288 | one prediction per sample, in order, each a best-scoring class |
| FeatureSelection.Cell | include/feature_selection.hpp:76-83 | a cell counts at most the documents seen |
| FeatureSelection.CellColumns | include/feature_selection.hpp:85-86 | the target column sums to the number of target documents; the other column to the rest |
| FeatureSelection.Contingency | include/feature_selection.hpp:75-89 | the four cells sum to n and the target column to the number of target documents |
| FeatureSelection.CellOfAbsentEmpty | include/feature_selection.hpp:85-86 | a word in every document leaves the "word absent" row empty |
| FeatureSelection.DocsWithMembers | include/feature_selection.hpp:55-62 | a word's posting list holds exactly the documents containing it, in increasing order |
| FeatureSelection.IndexDocs | include/feature_selection.hpp:55-62 | `word_docs` has the vocabulary as keys and each word's posting list as value |
| FeatureSelection.IndexDocument | include/feature_selection.hpp:57-61 | one more document appended to the index |
| FeatureSelection.IndexKeys | include/feature_selection.hpp:47-62 | the index keys are the dictionary |
| FeatureSelection.TargetHitsOfDocs | include/feature_selection.hpp:77-83 | the posting-list loop fills `count[1][1]` and `count[1][0]` |
| FeatureSelection.CountTable | include/feature_selection.hpp:76-86 | the four cells computed are the contingency table |
| FeatureSelection.Term | include/feature_selection.hpp:94-105 | an empty cell contributes nothing |
| FeatureSelection.TableInformation | include/feature_selection.hpp:91-107 | the double loop computes the mutual-information sum |
| FeatureSelection.InformationMap | include/feature_selection.hpp:40-113 | one entry per word of the vocabulary |
| FeatureSelection.UbiquitousWordCarriesNothing | include/feature_selection.hpp:85-107 | a word present in every document carries zero information, whatever `log2` is |
| FeatureSelection.FullRowInformation | include/feature_selection.hpp:92-107 | a table whose "absent" row is empty has zero information |
| FeatureSelection.WordScore | include/feature_selection.hpp:76-109 | the per-word body computes the word's mutual information |
| FeatureSelection.MutualInfo | include/feature_selection.hpp:40-113 | keys are exactly the vocabulary, each value the word's mutual information |
| FeatureSelection.InformationMapUnique | include/feature_selection.hpp:75-110 | a map with those keys and values is `InformationMap` |
| FeatureSelection.MaxScoreExists | include/feature_selection.hpp:141-146 | a non-empty score map has a key of largest score |
| FeatureSelection.PopTopK | include/feature_selection.hpp:141-148 | succeeds exactly when k ≤ the number of words, then gives k distinct scored words, none scoring below an unchosen one |
| FeatureSelection.InsertSorted | include/feature_selection.hpp:150 | inserting a new word into a strictly ascending list keeps it strictly ascending, with one more element |
| FeatureSelection.SortWords | include/feature_selection.hpp:150 | the sort gives the same distinct words strictly ascending |
| FeatureSelection.TopWordsOfClass | include/feature_selection.hpp:136-151 | succeeds exactly when top_k ≤ the vocabulary size, giving top_k ascending words whose scores dominate the rest |
| FeatureSelection.GetTopWordsPerClass | include/feature_selection.hpp:125-155 | succeeds exactly when there is no class or top_k ≤ the vocabulary size; one entry per class, each a top-k list for that class |
| FeatureSelection.BinarySearch | include/feature_selection.hpp:185-186 | on an ascending list, true exactly when the word is in it |
| FeatureSelection.PruneDocument | include/feature_selection.hpp:179-190 | erasing the non-top words of a sample keeps exactly its top words with their counts |
| FeatureSelection.Pruned | include/feature_selection.hpp:170-192 | the training set keeps its length |
| FeatureSelection.RemoveUnimportantWords | include/feature_selection.hpp:165-193 | the array afterwards holds `Pruned` of its old contents |
| FeatureSelection.PrunedWords | include/feature_selection.hpp:174-190 | a sample whose label has an entry keeps exactly its words in that entry, with their counts; every other sample is unchanged |
| FeatureSelection.PrunedIdempotent | include/feature_selection.hpp:170-192 | pruning twice is pruning once |
| FeatureSelection.PrunedVocabulary | include/feature_selection.hpp:179-190 | pruning never adds a word |
| Metrics.Hits | include/metrics.hpp:42-48 | there are no more hits than samples seen |
| Metrics.HitsMembership | include/metrics.hpp:46-47 | a class has a hit exactly when some sample is both labelled and predicted as that class |
| Metrics.HitsBound | include/metrics.hpp:42-48 | a class's hits are at most its predictions and at most its true labels |
| Metrics.PrecisionNoAvg | include/metrics.hpp:34-60 | the counting and dividing loops compute the per-class precision map |
| Metrics.RecallNoAvg | include/metrics.hpp:102-128 | the counting and dividing loops compute the per-class recall map |
| Metrics.DivideCounters | include/metrics.hpp:51-57 | every counter divided by its class's base count, the same keys |
| Metrics.PerClassKeys | include/metrics.hpp:42-57 | a class is a key exactly when it has a true positive (absent, not 0, otherwise), the same for precision and recall |
| Metrics.PerClassInUnit | include/metrics.hpp:51-57 | every per-class precision and recall lies in (0, 1] |
| Metrics.AccuracyRange | include/metrics.hpp:76-82 | for a non-empty label list micro precision lies in [0, 1], and is 1 exactly when every prediction is right |
| Metrics.MicroAverage | include/metrics.hpp:76-82 | the `tp` loop computes the hits / n ratio (none for n = 0) |
| Metrics.MeanInUnit | include/metrics.hpp:83-91 | the mean of a non-empty map of values in (0, 1] lies in (0, 1] |
| Metrics.MacroAverage | include/metrics.hpp:86-90 | the `for_each` total divided by the size is the mean (none for an empty map) |
| Metrics.AveragedPrecision | include/metrics.hpp:70-92 | micro precision is the accuracy ratio; macro precision is the mean of the per-class map |
| Metrics.AveragedRecall | include/metrics.hpp:138-160 | micro recall is the same ratio as micro precision; macro recall is the mean of the per-class recall map |
| Metrics.MacroInUnit | include/metrics.hpp:83-91 | with at least one true positive, macro precision and recall lie in (0, 1] |
| Metrics.FBeta | include/metrics.hpp:162-166 | undefined exactly when the denominator β²p + r is zero |
| Metrics.FBetaOfEqual | include/metrics.hpp:162-166 | f_beta(p, p, β) = p for p > 0 |
| Metrics.FBetaInUnit | include/metrics.hpp:162-166 | for p and r in (0, 1], the F value lies in (0, 1] |
| Metrics.FBetaValue | include/metrics.hpp:162-166 | the value is (1 + β²)pr / (β²p + r) |
| Metrics.FBetaOfZero | include/metrics.hpp:162-166 | f_beta(0, 0, β) is undefined (0/0) |
| Metrics.FScoreMap | include/metrics.hpp:176-194 | the per-class F map has the precision map's keys and values in (0, 1] |
| Metrics.FScoreNoAvgAsWritten | include/metrics.hpp:176-194 | as written (precision used twice) the per-class F map equals the precision map |
| Metrics.FScoreNoAvg | include/metrics.hpp:176-194 | with recall used for recall, the loop computes `FScoreMap` |
| Metrics.PrecisionTwiceCounterexample | include/metrics.hpp:181-182 | for labels [0, 1] predicted [0, 0], the as-written per-class map gives 1/2 while F1 is 2/3 |
| Metrics.AveragedFScore | include/metrics.hpp:204-224 | micro F is f_beta of micro precision and recall. Macro F, built on the as-written per-class scores, is the mean of the per-class precisions |
| Metrics.MacroPrecisionCounterexample | include/metrics.hpp:215-222 | for labels [0, 1] predicted [0, 0], the macro F as written is 1/2 where the mean per-class F1 is 2/3 |
| Metrics.MacroFScore | include/metrics.hpp:215-222 | the corrected macro F: the mean of the per-class F1 map, with the default β = 1 since `beta` is not passed on |
| Metrics.MicroFScoreIsAccuracy | include/metrics.hpp:210-214 | when accuracy is positive, micro F equals micro precision |

## Left out

- Streams and files: `get_next_doc`, the `getline` loop of `get_doc_topics`,
  `parse_file` and all of `src/file_manager.cpp`. The routing loop takes the
  in-memory result of `parse_file` (`ConstructDatasets.Parsed`) as input.
  src/file_manager.cpp is not part of this model.
- The stopword file load (src/tokenizer.cpp:65-74). The stopwords are a set given
  to the tokenizer's constructor.
- The numeric values of `std::log` and `std::log2`, and every floating-point
  rounding. The logarithms are uninterpreted functions, and the ratios are exact
  reals.
- The classifier's text serialisation (`operator<<` and `operator>>`), which is
  about fixed-format printing of doubles.
- The accessors `prior()` and `likelihood()`. They return the fields
  `Classifier.prior` and `Classifier.likelihood`, which the model exposes
  directly.
- The Porter stemmer: only its returned end index is modelled, not its rewriting of
  the buffer.
- `isalnum` and `tolower` are modelled as ASCII functions, with no locale.
- `Tokenizer::stats()` top-20 reporting, which is telemetry.
- Printing, usage text, the `fit`/`predict` glue and every `main`; also
  `src/main_traintest.cpp`.
- Iteration order of unordered maps and the exact heap layout. Where several
  classes tie for the maximum score (`predict`) or several words tie at the
  top-k boundary, the model leaves open which one is chosen.
- NaiveBayes.Classifier.Fit: requires every sample count to be positive, as counted
  term samples are. A zero count could make a class's word total zero and the
  smoothing denominator zero. `total_word_count` is an `int`, and its overflow is
  not modelled.
- NaiveBayes.Classifier.Predict: requires `CanScore`, a non-empty dictionary
  unless the class list or the sample is empty. Otherwise the source takes
  `log(1/0)`, an IEEE infinity, which real arithmetic does not have. It also
  requires the set of scored classes to be non-empty, since `max_element` of an
  empty map is dereferenced.
- Metrics.PrecisionNoAvg: requires `|y_true| <= |y_pred|`, the reads the loops
  make. Micro and macro averages of an empty input (0/0) are `None`, not NaN.
- FeatureSelection.RemoveUnimportantWords: `y_train` is passed by non-const
  reference in the source but never written. The model passes it by value.
- Tokenizer.Tokenizer.GetDocTerms: on a document with a token whose punctuation
  removal runs off it, the source's behaviour is undefined from that token on. The
  model stops there. The raw tokens have been counted; the normalized-term map and
  the other counters keep their old values.
- Parser.Atoi: `atoi` overflow is undefined behaviour and gives `None`. Leading
  white space and signs are modelled; locale is not.

## Findings

| source | as written | input that shows it | evidently intended | confidence | as-written member | corrected member |
|---|---|---|---|---|---|---|
| include/naive_bayes_classifier.hpp:224-234 | `fit` never refreshes `m_dict`. On a default-constructed classifier the smoothing denominator is the class's word total alone | default classifier, `fit([{7: 1}], [0])`: `likelihood[7][0] = (1 + 1) / (1 + 0) = 2` | the denominator counts the training vocabulary, so every likelihood is a probability in (0, 1] | high, not executed | NaiveBayes.EmptyDictionaryLikelihood | NaiveBayes.Classifier.FitWithVocabulary |
| include/metrics.hpp:181-182 | per-class recall is computed with `precision<NoAvg>`, so F is fed precision twice and equals precision | y_true = [0, 1], y_pred = [0, 0]: precision 1/2, recall 1, F1 should be 2/3 but is 1/2; the macro F is 1/2 as well | recall is computed with `recall<NoAvg>`, and the macro F averages those scores | high, not executed | Metrics.PrecisionTwiceCounterexample | Metrics.FScoreNoAvg |
| src/tokenizer.cpp:50-52 | the front scan for a non-alphanumeric has no bound | `remove_punctuation("!!!")`: no character stops the scan, which runs past the end of the string; `normalize`, `normalize_all` and `get_doc_terms` inherit this | a punctuation-only token becomes `""` | high, not executed | Tokenizer.PunctuationOnlyToken | Tokenizer.StripPunctuation |
