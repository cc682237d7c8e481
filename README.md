# Text-to-id encoding of the summarisation data loader

This project models the part of the summarisation data loader that turns
the text fields of the car-repair dialogue dataset into integer id rows.
It covers these steps:

- Cleaning: each field is split into turns on `'|'`, and each turn is
  word-segmented. The turns are rejoined with `" | "`. Empty tokens, the
  noise tokens and the stop words are dropped (`seg_proc`, `cut_sentence`,
  `filter_words`, `sentence_proc`).
- Table cleaning: the fixed text columns of a table, and `Report` when the
  table has it, are rewritten in place (`sentences_proc`).
- Joining: the space-joined `merged` and `X` columns are built, and the
  `merged` column is dropped again.
- Padding: a sentence is padded to `max_len + 2` tokens, with start and stop
  markers, the unknown token for words outside the membership set, and
  padding tokens (`pad_proc`).
- Encoding: each token is mapped to its id (`transform_data`).
- Single sentences: `preprocess_sentence` runs all of the above for one
  sentence.
- Tables: the forward and reverse tables are built from the embedding
  trainer's ranked word list.

Modules:

- `PyStr` (`py_str.dfy`): the Python string operations the pipeline
  relies on, with Python's semantics.
  - `str.split(sep)`: `""` splits to `[""]`, and consecutive separators give
    empty tokens.
  - `sep.join`, `str.count` and `str.strip()`. Strip uses Python's Unicode
    white-space set.
- `Vocabulary` (`vocabulary.dfy`): the four reserved tokens, the id lookup
  table with its unknown index, and the tables of the ranked word list.
- `Cleaning` (`cleaning.dfy`): the segmenter and the stop-word set are one
  `Resources` value fixed before any cleaning.
  - The segmenter is a parameter: a function from a line of text to its token
    list.
  - `seg_proc` is a method with its loop.
  - Everything else is a function.
- `Encoding` (`encoding.dfy`): `pad_proc`, `transform_data` and
  `preprocess_sentence`.
- `Dataset` (`dataset.dfy`):
  - a `Frame` class whose columns (a map from column name to cells) the
    methods update in place, the way the dataframe steps do;
  - the token counts `get_max_len` starts from;
  - lemmas about joined and encoded columns.
- `Scenarios` (`scenarios.dfy`): worked cases derived from the general
  contracts.

Behaviour of the code that the model makes explicit:

- An empty or all-white-space sentence pads to `START UNK STOP` followed by
  `max_len - 1` padding tokens, because `"".strip().split(' ')` is `[""]`
  and that empty word is not a member, so it becomes the unknown token
  (`Encoding.PadProcBlankInput`).
- `filter_words` removes the `"|"` tokens that `seg_proc` inserts, because
  `"|"` is in `remove_words`, so no cleaned field holds a turn separator
  (`Cleaning.SentenceProc`, `Cleaning.SentenceProcTurns`).
- `pad_proc` reaches `max_len + 2` tokens only for `max_len >= 0`. The slice
  `words[:max_len]` follows Python, so a negative bound counts from the end;
  `preprocess_sentence` passes `max_len - 2`.
- The forward table maps a repeated word to its last position.
- The tables of lines 128-129 hold only the trainer's words, so they give
  the reserved tokens ids only when the trainer's list holds them. The list
  of `Scenarios.ExampleTable` puts the reserved tokens first.

## Model

| member | source | states |
|---|---|---|
| PyStr.Split | text_summarization/part_02/src/utils/data_loader.py:289 | `str.split(sep)` never returns an empty list |
| PyStr.SplitPiecesWithoutSeparator | text_summarization/part_02/src/utils/data_loader.py:237 | no piece of a split contains the separator |
| PyStr.JoinEnds | text_summarization/part_02/src/utils/data_loader.py:323 | `sep.join` (here and at lines 45, 73, 246, 302 and 308) of no parts is `""`; otherwise the joined string starts with the first part and ends with the last (splitting it again is `PyStr.SplitJoin` and `PyStr.SplitJoinEach`) |
| PyStr.Count | text_summarization/part_02/src/utils/data_loader.py:215 | `x.count(c)` is at most `len(x)`, and zero exactly when `c` does not occur in `x` |
| PyStr.SplitLength | text_summarization/part_02/src/utils/data_loader.py:215 | the number of pieces is the number of separators plus one, so `x.count(' ') + 1` is the token count of `x` |
| PyStr.SplitNoSeparator | text_summarization/part_02/src/utils/data_loader.py:298 | a string without the separator splits into itself alone |
| PyStr.SplitAround | text_summarization/part_02/src/utils/data_loader.py:302 | splitting around one separator splits each side on its own and concatenates the pieces |
| PyStr.SplitJoin | text_summarization/part_02/src/utils/data_loader.py:246 | for a non-empty list of parts without a space, splitting the space-join gives the parts back |
| PyStr.JoinSplit | text_summarization/part_02/src/utils/data_loader.py:298 | rejoining the pieces of a split with the separator gives the original string, so splitting a field into turns loses no character |
| PyStr.SplitJoinEach | text_summarization/part_02/src/utils/data_loader.py:45 | the pieces of a joined string are the pieces of each part, one part after the other |
| PyStr.Strip | text_summarization/part_02/src/utils/data_loader.py:237 | the stripped string is a slice of the input with only white space before and after it; it neither starts nor ends with white space, and is empty exactly when the input is all white space |
| Vocabulary.WordToIndex | text_summarization/part_02/src/utils/data_loader.py:128 | the table's keys are exactly the listed words; each word maps to a position holding it, and no later position holds it |
| Vocabulary.IndexToWord | text_summarization/part_02/src/utils/data_loader.py:129 | the reverse table's keys are exactly the positions `0 ..< len(index2word)`, and each maps to the word at that position |
| Vocabulary.TablesAreInverse | text_summarization/part_02/src/utils/data_loader.py:128-129 | without repeats, the forward and reverse tables are mutual inverses both ways, and both index sets are exactly `0 ..< len(index2word)` |
| Cleaning.DropNoise | text_summarization/part_02/src/utils/data_loader.py:291 | the first pass never yields more tokens than it is given (which tokens remain: `Cleaning.DropNoiseMembers`) |
| Cleaning.DropStopWords | text_summarization/part_02/src/utils/data_loader.py:293 | the second pass never yields more tokens than it is given (which tokens remain: `Cleaning.DropStopWordsMembers`) |
| Cleaning.FilterTokens | text_summarization/part_02/src/utils/data_loader.py:291-293 | both passes together never yield more tokens than they are given (which tokens remain: `Cleaning.FilterTokensMembers`) |
| Cleaning.DropNoiseMembers | text_summarization/part_02/src/utils/data_loader.py:291 | a token is left by the first pass exactly when it is an input token, non-empty and not a noise token |
| Cleaning.DropStopWordsMembers | text_summarization/part_02/src/utils/data_loader.py:293 | a token is left by the second pass exactly when it is an input token and not a stop word |
| Cleaning.FilterTokensMembers | text_summarization/part_02/src/utils/data_loader.py:291-293 | a token survives both passes exactly when it is an input token, non-empty, not noise and not a stop word |
| Cleaning.FilterWords | text_summarization/part_02/src/utils/data_loader.py:284-294 | a token is in the result exactly when it is a `' '`-split token of the input, non-empty, not noise and not a stop word |
| Cleaning.FilterTokensAppend | text_summarization/part_02/src/utils/data_loader.py:291-293 | filtering keeps order: filtering a concatenation concatenates the filtered parts, and one token is kept exactly when it passes both tests |
| Cleaning.FilterTokensKeepsAll | text_summarization/part_02/src/utils/data_loader.py:291-293 | a token list whose every token passes both tests is returned unchanged |
| Cleaning.FilterWordsIdempotent | text_summarization/part_02/src/utils/data_loader.py:321-323 | filtering the space-join of a filtered result gives that result again, the empty result included |
| Cleaning.CutSentence | text_summarization/part_02/src/utils/data_loader.py:305-308 | no tokens give `""`; a non-empty token list without spaces is exactly what splitting the result on `' '` gives back |
| Cleaning.CutEach | text_summarization/part_02/src/utils/data_loader.py:300-301 | one segmented turn per turn, in order |
| Cleaning.SegProc | text_summarization/part_02/src/utils/data_loader.py:297-302 | the loop returns every turn of the field, each segmented, joined by the turn separator with a space on each side |
| Cleaning.SplitTurnJoin | text_summarization/part_02/src/utils/data_loader.py:302 | the space-split tokens of turns joined with the spaced separator are each turn's tokens with a separator token between consecutive turns |
| Cleaning.SegmentedTokens | text_summarization/part_02/src/utils/data_loader.py:298-302 | there is one turn per separator character plus one; the segmented field's tokens are each turn's tokens with a separator token between turns |
| Cleaning.FilterTurnTokens | text_summarization/part_02/src/utils/data_loader.py:319-321 | filtering the turn tokens equals filtering each turn on its own and concatenating |
| Cleaning.SentenceProc | text_summarization/part_02/src/utils/data_loader.py:311-323 | the result is empty exactly when no token is kept; otherwise its tokens are exactly the kept tokens of the segmented field; none is empty, noise or a stop word, and the separator token is never among them |
| Cleaning.SentenceProcTurns | text_summarization/part_02/src/utils/data_loader.py:319-323 | the cleaned field's tokens are the concatenation of each turn's kept tokens, and the field is empty exactly when no turn keeps a token |
| Encoding.Truncate | text_summarization/part_02/src/utils/data_loader.py:239 | the slice is a prefix of the words; its length is `min(max_len, n)` for a non-negative bound and `max(n + max_len, 0)` for a negative one |
| Encoding.ReplaceUnknown | text_summarization/part_02/src/utils/data_loader.py:241 | same length; each word is kept when it is a member and replaced by the unknown token otherwise |
| Encoding.Repeat | text_summarization/part_02/src/utils/data_loader.py:245 | `[token] * n` has `n` copies of the token, none when `n <= 0` |
| Encoding.PadProc | text_summarization/part_02/src/utils/data_loader.py:232-246 | the result's `' '`-split tokens are the start marker, the truncated words with unknowns replaced, the stop marker and the padding; for `max_len >= 0` there are exactly `max_len + 2` of them |
| Encoding.KeptWordsSpaceFree | text_summarization/part_02/src/utils/data_loader.py:237-241 | no word of the stripped, split and truncated sentence contains a space |
| Encoding.PadTokensLength | text_summarization/part_02/src/utils/data_loader.py:239-245 | there are at least two padded tokens, and exactly `max_len + 2` when `max_len >= 0` |
| Encoding.PadTokensWithoutSpace | text_summarization/part_02/src/utils/data_loader.py:237-246 | no padded token contains a space, so joining them with spaces and splitting again gives them back |
| Encoding.PadProcLayout | text_summarization/part_02/src/utils/data_loader.py:239-245 | token 0 is the start marker; tokens 1..k are the first k = min(max_len, words) stripped words, or the unknown token for non-members; token k+1 is the stop marker; every later token is padding |
| Encoding.PadProcBlankInput | text_summarization/part_02/src/utils/data_loader.py:237-245 | a blank input pads to start, unknown, stop and `max_len - 1` padding tokens, or to the two markers when `max_len == 0` |
| Encoding.Lookup | text_summarization/part_02/src/utils/data_loader.py:228 | every id is an id of the table or the unknown index, and a word without an entry gets the unknown index |
| Encoding.LookupEach | text_summarization/part_02/src/utils/data_loader.py:228 | one id per word, in order, each the word's table entry or the unknown index |
| Encoding.TransformData | text_summarization/part_02/src/utils/data_loader.py:219-229 | one id per `' '`-split token, in order: the table entry for a token in the table and the unknown index otherwise, so no token makes it fail |
| Encoding.EncodedPadLayout | text_summarization/part_02/src/utils/data_loader.py:226-228 | encoding a padded sentence gives `max_len + 2` ids: the start marker's id, each kept word's id (through both membership tests), the stop marker's id, then the padding id |
| Encoding.DecodePadded | text_summarization/part_02/src/utils/data_loader.py:128-129 | with tables built from a repeat-free list that holds the reserved tokens and the member words, the reverse table maps every id of an encoded padded sentence back to its padded token |
| Encoding.PreprocessSentence | text_summarization/part_02/src/utils/data_loader.py:162-170 | one row; for `max_len >= 2` it has exactly `max_len` ids and starts with the start marker's id |
| Dataset.CleanColumn | text_summarization/part_02/src/utils/data_loader.py:333 | `apply` gives one cleaned cell per cell |
| Dataset.PadColumn | text_summarization/part_02/src/utils/data_loader.py:85-97 | one padded cell per cell, each splitting into that cell's padded tokens, `max_len + 2` of them when `max_len >= 0` |
| Dataset.EncodeColumn | text_summarization/part_02/src/utils/data_loader.py:142-145 | one id list per cell, with one id per `' '`-split token of the cell, each the token's lookup, in order |
| Dataset.TokenCounts | text_summarization/part_02/src/utils/data_loader.py:215 | one count per row, each the number of `' '`-split tokens of the cell and so at least one |
| Dataset.TextColumnsDistinct | text_summarization/part_02/src/utils/data_loader.py:332-335 | the four fixed columns are distinct, and `Report` is not one of them |
| Dataset.CleanedInOrder | text_summarization/part_02/src/utils/data_loader.py:332-333 | cleaning named columns one after the other keeps the column set and every column's length |
| Dataset.CleanedReport | text_summarization/part_02/src/utils/data_loader.py:335-337 | cleaning `Report` when present keeps the column set and every column's length |
| Dataset.CleanedInOrderCells | text_summarization/part_02/src/utils/data_loader.py:332-333 | cleaning distinct columns in order cleans each named column exactly once and leaves every other column as it was |
| Dataset.CompletedCells | text_summarization/part_02/src/utils/data_loader.py:332-337 | with every fixed column present, exactly the four fixed columns and `Report` are cleaned, each once; every other column is as it was |
| Dataset.Frame.constructor | text_summarization/part_02/src/utils/data_loader.py:29-30 | a table whose columns all have the given row count |
| Dataset.Frame.CleanTextColumns | text_summarization/part_02/src/utils/data_loader.py:332-333 | the loop cleans Brand, Model, Question and Dialogue in that order and stops at the first one missing; the result is the number cleaned, the table is the input with those columns cleaned, and the row count is kept |
| Dataset.Frame.SentencesProc | text_summarization/part_02/src/utils/data_loader.py:326-338 | it raises exactly when a fixed column is missing, and then the fixed columns before it are cleaned; otherwise the four fixed columns and then `Report`, when present, are cleaned; the column set and the row count are unchanged |
| Dataset.Frame.JoinColumns | text_summarization/part_02/src/utils/data_loader.py:45-46 | the target column becomes the space-join of the source cells of each row (also the `X` column of lines 73-74); it raises, changing nothing, exactly when a source column is missing |
| Dataset.Frame.PadInto | text_summarization/part_02/src/utils/data_loader.py:85-97 | the target column becomes the padded source column; it raises, changing nothing, exactly when the source is missing |
| Dataset.Frame.DropColumn | text_summarization/part_02/src/utils/data_loader.py:53-54 | only the named column is removed, the rest unchanged; it raises exactly when the column is missing |
| Dataset.JoinedColumn | text_summarization/part_02/src/utils/data_loader.py:73-74 | one joined cell per row (the `X` column here, `merged` at lines 45-46); with at least one source column, the tokens of a joined row are the tokens of each source cell, one cell after the other |
| Dataset.MergedRowTokens | text_summarization/part_02/src/utils/data_loader.py:45 | a `merged` row's tokens are those of Question, Dialogue and Report in turn, and its token count is the sum of theirs |
| Dataset.EncodedColumnIsRectangular | text_summarization/part_02/src/utils/data_loader.py:142-152 | padding then encoding a column gives one row per cell, each of `max_len + 2` ids starting with the start marker's id, so the id rows form a matrix |
| Scenarios.FilterFront | text_summarization/part_02/src/utils/data_loader.py:291-293 | filtering a list with one token in front is that token's outcome followed by filtering the rest |
| Scenarios.FilterKeepDropDropKeep | text_summarization/part_02/src/utils/data_loader.py:291-293 | keep, drop, drop, keep yields the first and last token |
| Scenarios.SplitFourWords | text_summarization/part_02/src/utils/data_loader.py:289 | `"你好 的 图片 师傅"` splits into its four words |
| Scenarios.ExampleKept | text_summarization/part_02/src/utils/data_loader.py:291-293 | with stop word `"的"`, the picture marker and the stop word are dropped and the other two words kept |
| Scenarios.FilterExample | text_summarization/part_02/src/utils/data_loader.py:284-294 | with stop word `"的"`, `"你好 的 图片 师傅"` filters to `["你好", "师傅"]` |
| Scenarios.TwoWordsKept | text_summarization/part_02/src/utils/data_loader.py:237-239 | two one-letter words separated by a space survive stripping, splitting and truncation to two or more words |
| Scenarios.PadTwoMembers | text_summarization/part_02/src/utils/data_loader.py:237-246 | two member words padded to three give start, both words, stop and one padding token |
| Scenarios.PadMemberAndStranger | text_summarization/part_02/src/utils/data_loader.py:237-246 | a member and a non-member padded to two give start, the member, the unknown token and stop |
| Scenarios.ExampleTable | text_summarization/part_02/src/utils/data_loader.py:128 | with the reserved tokens first and two words after them, every one of the six listed words gets its position as its id: `<PAD>` 0, `<UNK>` 1, `<START>` 2, `<STOP>` 3, then 4 and 5 |
| Scenarios.EncodeTokens | text_summarization/part_02/src/utils/data_loader.py:226-228 | encoding depends only on the space-split tokens |
| Scenarios.LookupExample | text_summarization/part_02/src/utils/data_loader.py:228 | the padded tokens of the example look up to `[2, 4, 1, 3]` |
| Scenarios.EncodeExample | text_summarization/part_02/src/utils/data_loader.py:226-246 | padding a member and a non-member to two and encoding with that table gives `[2, 4, 1, 3]` |

## Left out

- Reading and writing the CSV, numpy and model files, creating directories
  and printing progress (lines 29-31, 48-50, 56-60, 63, 100-103, 121-127,
  130-137, 155-158): these are I/O. The tables of lines 128-129 are
  modelled.
- The `merged_df` concatenation of line 47 only feeds file output. It is
  left out.
- Training the word embeddings (lines 64-70): this is a foreign library call.
  The model takes its ranked word list `index2word` and its word set (the
  `members` of `pad_proc`) as inputs.
- `parallelize` and `cores` (lines 41-42): these are multiprocessing helpers
  defined outside this file. Their order-preserving concatenation makes each
  call equal to `sentences_proc` over the whole table, and the model says
  only that.
- `jieba.load_userdict` and `jieba.cut` (lines 19, 307): the segmenter is a
  foreign library. It is a parameter, `Resources.segment`.
- `get_max_len` (lines 210-216) computes with floating-point mean and
  standard deviation and then truncates with `int(...)`, not `round`. Only
  the integer per-row token counts are modelled (`Dataset.TokenCounts`).
  `max(...)` of line 84 needs those floats, so each padding length is a
  parameter.
- `dropna` and `fillna` (lines 34-38): a cell of the model is always a
  string, so a missing cell cannot occur. The code also drops test rows
  without a `Report` (line 35), which the model does not show.
- `clean_sentence` (lines 269-281) is a regular expression pass, and its
  one call (line 317) is commented out. It is left out, and so is the
  commented-out code of lines 107-118, 173-184 and 201-207.
- `load_stop_words` and `load_dataset` (lines 187-198, 249-260) read files.
  The stop words are a given set, `Resources.stopWords`.
- The `Vocab` class of `wv_loader` is not part of this model. The model uses
  the `Vocab` datatype in its place: the id table and the unknown index. The
  reserved tokens are the constants `<START>`, `<STOP>`, `<PAD>` and
  `<UNK>`; only their being distinct and free of spaces matters.
- Encoding.PreprocessSentence: the code tests `word in vocab` on the `Vocab`
  object, whose containment test is defined outside this file. The model
  takes it as having an entry in the id table.
- Converting the id rows to numpy arrays (lines 149-152, 170) is modelled
  as rows of integers. `Dataset.EncodedColumnIsRectangular` states that
  they form a matrix.
- `params_utils.py` holds argument parsing and literal defaults only.
