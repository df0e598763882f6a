# language-recognize: a verified model of the text pipeline

language-recognize trains and serves a character-level classifier. It tells
which of six Latin-alphabet languages a text is written in. This project
models, in Dafny, the pipeline that turns text into training lines and
model inputs. It also models the decisions the two serving handlers take
around the classifier.

- **Canonicalisation** (`Canonical`). Both the dataset builder and the
  serving path transliterate the text. They then collapse every maximal run
  of whitespace or `_()-,:;%&` into one space. Only the dataset builder
  goes on to rewrite `!` and `?` into `.`.
- **The dataset builder** (`MakeDataset`). It models the following.
  - `process_text`.
  - The sentence scan of `save_text`: the maximal `[\w\-\s']` runs, each
    stripped and kept when its length is within bounds.
  - The file name `text-%05d.txt`.
  - The train/test walk over the shuffled rows of one language's table.
  - The loop over `LANG_FILES` that skips missing tables.
- **The character tokenizer** (`Tokenizer`). It has 63 codes: the
  interleaved letters, the digits, then `[UNK]`. Unknown characters get 63.
- **The serving utilities** (`ServerUtils`): `normalize_text` and
  `str_to_codes`.
- **The two request handlers**. `ServiceTypes` holds what they share:
  settings, `validate_input`, the prediction and the error cases.
  - `SrcHandlers` is the model-backed handler. It validates, normalizes,
    encodes, classifies, then reports the first label with the highest
    score.
  - `ServerHandlers` is the stub handler. It answers a constant prediction.

Stateful code is modelled in imperative form. `save_text`, the
`process_file` loop and the `prepare_dataset` loop are methods with loop
invariants. Each is proved equal to a specification function, and the
properties are proved about those functions. The remaining code is pure
and modelled as functions and lemmas.

The handlers and the tokenizer become datatype values. Their fields are
set once by `__init__` and never change.

Raised exceptions become `Result` errors:
- `InputValidationErr`;
- the `ValueError` of `np.max` on an empty array;
- the `IndexError` of `LANGUAGES[lang_idx]`;
- `FileNotFoundError`;
- the `ZeroDivisionError` of `fnum % 0`;
- the tokenizer's `TypeError`.

Two notes on what the code does:
- `re.sub("[!?]", ".", ...)` rewrites each mark on its own, so `"vu!!"`
  becomes `"vu.."` and not `"vu."` (`Canonical.ReplaceMarksExample`).
- `,` is not in the segment class `[\w\-\s']` of `save_text`. A text
  holding a comma is therefore scanned as two matches, split at the comma,
  and not as one trimmed span. `process_text` already turns every comma
  into a space, so this split only happens when `save_text` is given text
  that was not processed first.

## Model

| member | source | states |
|---|---|---|
| MakeDataset.LangFiles | data-preparation/make_dataset.py:9-16 | `LANG_FILES`: the six csv names with their language names, in the dict's insertion order, which `PrepareDataset` follows. |
| MakeDataset.RandomSeed | data-preparation/make_dataset.py:19 | `RANDOM_SEED = 12345`, passed to the shuffle on every call. |
| Canonical.Collapse | data-preparation/make_dataset.py:31 | The collapse never lengthens the text and is empty only for empty input. It starts with a space exactly when the input starts with a separator. What is left has ' ' as its only separator, never twice in a row, and ASCII input stays ASCII. |
| Canonical.CollapseOfRun | data-preparation/make_dataset.py:31 | A single maximal run of separators becomes exactly one space. |
| Canonical.CollapseAroundKept | data-preparation/make_dataset.py:31 | A character outside the separator class splits the substitution: `Collapse(a + [c] + b) == Collapse(a) + [c] + Collapse(b)`. |
| Canonical.CollapseAfterKept | data-preparation/make_dataset.py:31 | Text that ends in a kept character collapses independently of what follows: `Collapse(x + y) == Collapse(x) + Collapse(y)`. |
| Canonical.CollapseRunThenKept | data-preparation/make_dataset.py:31 | A run of separators before a kept character becomes one space in front of the collapse of the rest. |
| Canonical.CollapseFixpoint | data-preparation/make_dataset.py:31 | Text already in collapsed shape is not changed by the collapse. |
| Canonical.CollapseKeepsOthers | data-preparation/make_dataset.py:31 | Every character outside the separator class survives the collapse, in order. |
| Canonical.CollapseKeptExample | data-preparation/make_dataset.py:31 | "ok!" has no separator and is left as it is. |
| Canonical.CollapseRunExample | data-preparation/make_dataset.py:31 | "a, b" and any like it collapse to "a b". |
| Canonical.ReplaceMarks | data-preparation/make_dataset.py:34 | The length is unchanged. No `!` or `?` is left: each becomes `.` and every other character stays where it was. |
| Canonical.ReplaceMarksKeepsCollapsed | data-preparation/make_dataset.py:34 | Rewriting the marks keeps the collapsed shape. |
| Canonical.ReplaceMarksKeepsAscii | data-preparation/make_dataset.py:34 | Rewriting the marks keeps ASCII text ASCII. |
| Canonical.ReplaceMarksIdempotent | data-preparation/make_dataset.py:34 | Rewriting the marks twice is rewriting them once. |
| Canonical.ReplaceMarksExample | data-preparation/make_dataset.py:34 | "deja vu!!" becomes "deja vu..": one period per mark. |
| MakeDataset.Rewrite | data-preparation/make_dataset.py:31-34 | The two substitutions never lengthen the text and leave no `!` or `?`. |
| MakeDataset.ProcessText | data-preparation/make_dataset.py:22-35 | `process_text`: the transliteration followed by the two substitutions. The result is never longer than the transliterated text and holds no `!` or `?`; its shape and idempotence are the lemmas below. |
| MakeDataset.RewriteShape | data-preparation/make_dataset.py:31-34 | After both substitutions the text is collapsed, and ASCII input stays ASCII. |
| MakeDataset.RewriteIdempotent | data-preparation/make_dataset.py:31-34 | The collapse-and-rewrite pass is idempotent. |
| MakeDataset.ProcessTextIdempotent | data-preparation/make_dataset.py:22-35 | `process_text` is idempotent, provided the transliteration leaves ASCII alone and makes this text ASCII. |
| MakeDataset.ProcessTextShape | data-preparation/make_dataset.py:22-35 | After `process_text` there is no `!`, `?` or newline, no separator other than ' ', and there are never two spaces in a row. |
| MakeDataset.ProcessTextMarkExample | data-preparation/make_dataset.py:22-35 | "ok!" is processed to "ok.". |
| MakeDataset.ProcessTextRunExample | data-preparation/make_dataset.py:22-35 | "a, b" is processed to "a b". |
| MakeDataset.FindAll | data-preparation/make_dataset.py:56 | Every match is a non-empty run of `[\w\-\s']` characters. |
| MakeDataset.FindAllOfRun | data-preparation/make_dataset.py:56 | A text that is one run is found as exactly one match. |
| MakeDataset.FindAllSplit | data-preparation/make_dataset.py:56 | A character outside the class separates matches: the matches of `a + [c] + b` are those of `a` followed by those of `b`. |
| MakeDataset.FindAllCharsFromInput | data-preparation/make_dataset.py:56 | Every character of every match is a character of the input. |
| MakeDataset.Strip | data-preparation/make_dataset.py:57 | The result is a contiguous piece of the input with no whitespace at either end, and only whitespace lies around it. |
| MakeDataset.StrippedAtUnique | data-preparation/make_dataset.py:57 | At most one string meets that description, so the contract of `Strip` determines `str.strip()`. |
| MakeDataset.StripExample | data-preparation/make_dataset.py:57 | " a b\t" strips to "a b": spaces and tabs go from both ends and stay in the middle. |
| MakeDataset.KeptLinesAppend | data-preparation/make_dataset.py:56-60 | The lines written for two lists of matches are the lines for the first followed by those for the second, so source order is kept. |
| MakeDataset.LineFor | data-preparation/make_dataset.py:57-60 | What one match adds to the file: its stripped text plus "\n" when that length lies within `[min_length, max_length]`, and nothing otherwise. Pinned down without this definition by `MakeDataset.KeptLinesAt`. |
| MakeDataset.KeptLines | data-preparation/make_dataset.py:56-60 | The lines of the `for` loop over the matches, in match order. Characterised by `KeptLinesAt` (both directions of the filter), `KeptLinesAppend` and `KeptLinesShape`. |
| MakeDataset.KeptLinesAt | data-preparation/make_dataset.py:56-60 | Match `k` is judged in place: the lines are those of the matches before it, then its stripped text plus "\n" exactly when that text is within the bounds (nothing otherwise), then those of the matches after it. So a qualifying match is always written, and only a qualifying one. |
| MakeDataset.KeptLinesSnoc | data-preparation/make_dataset.py:56-60 | One more match adds its line, if it qualifies, at the end. |
| MakeDataset.KeptLinesShape | data-preparation/make_dataset.py:56-60 | Every written line is some match, stripped, followed by one newline. Its length without the newline lies within the bounds. |
| MakeDataset.NothingQualifiesEmptyFile | data-preparation/make_dataset.py:55-60 | When no match qualifies, the file gets no line. |
| MakeDataset.ProcessedLinesAreSingleLines | data-preparation/make_dataset.py:56-60 | For processed text, every written line has its newline only at the end. |
| MakeDataset.StrippedHasNoNewline | data-preparation/make_dataset.py:57 | Stripping adds no newline to a match. |
| MakeDataset.FileNumberRoundTrip | data-preparation/make_dataset.py:54 | The number in the name is all digits and reads back as the file number. It has five digits for numbers below 100000, and never fewer. |
| MakeDataset.Format05d | data-preparation/make_dataset.py:54 | Python's `format(n, "05d")`: the decimal digits left-padded with "0" to width five, the minus sign counting towards the width. Its properties are `FileNumberRoundTrip` and `FileNameExamples`. |
| MakeDataset.FileName | data-preparation/make_dataset.py:54 | `f"text-{file_number:05d}.txt"`, whose shape is stated by `FileNameShape`. |
| MakeDataset.FileNameShape | data-preparation/make_dataset.py:54 | Every name reads `text-`, then the formatted number, then `.txt`. |
| MakeDataset.FileNameExamples | data-preparation/make_dataset.py:54 | File 7 is "text-00007.txt". File -3 is "text--0003.txt": the sign counts towards the width. |
| MakeDataset.SaveText | data-preparation/make_dataset.py:38-60 | The loop writes the file named after the number. It holds, in order, each stripped match whose length is within bounds, plus a newline. The file exists even with no line. |
| MakeDataset.SavedText | data-preparation/make_dataset.py:38-60 | The file `save_text` leaves behind: its name from `FileName` and the kept lines of the `re.findall` matches. |
| MakeDataset.SavedTextOneLineExample | data-preparation/make_dataset.py:54-60 | A text that is one qualifying match, without spaces at its ends, gives a file of exactly that line plus "\n". |
| MakeDataset.Assign | data-preparation/make_dataset.py:100-110 | Every visited row goes to exactly one of the two splits. |
| MakeDataset.AssignCounts | data-preparation/make_dataset.py:100-110 | After `n` rows, test holds `n / |ratio|` rows and train the other `n - n / |ratio|`, with Python's `%` for either sign of the ratio. |
| MakeDataset.AssignPosition | data-preparation/make_dataset.py:102-110 | The row at 1-based position `p` goes to test iff `p % ratio == 0`. There it is the `p / |ratio|`-th test row, and otherwise the `(p - p / |ratio|)`-th train row. |
| MakeDataset.AssignPrefix | data-preparation/make_dataset.py:102-110 | Walking further only appends to either split. |
| MakeDataset.AssignCovers | data-preparation/make_dataset.py:102-110 | The two splits together hold exactly the visited rows, as a multiset. |
| MakeDataset.EachRowOnce | data-preparation/make_dataset.py:96-110 | With a shuffled index of the table, every row of the table is processed exactly once. |
| MakeDataset.SaveRows | data-preparation/make_dataset.py:100-110 | A split gets one file per row routed to it. |
| MakeDataset.SaveRowsAt | data-preparation/make_dataset.py:104-110 | File `k` of a split holds the processed row `rows[k]` and is numbered `k + 1`, so each split's numbers run consecutively from 1. |
| MakeDataset.SaveRow | data-preparation/make_dataset.py:105-110 | One pass of the loop writes the file for the processed row under the counter's number. |
| MakeDataset.SaveShuffled | data-preparation/make_dataset.py:100-110 | The loop with its two counters produces exactly the train files and the test files of the routing. |
| MakeDataset.ProcessFile | data-preparation/make_dataset.py:63-110 | The index is shuffled with the fixed `RANDOM_SEED` on every call, so the outcome depends only on the table. A zero ratio fails iff the table has a row. Otherwise the outcome is that language's two lists of files. |
| MakeDataset.SplitLanguage | data-preparation/make_dataset.py:96-110 | One language's output for a given shuffled index: the files of `Assign`'s train rows and of its test rows, each numbered from 1. `SaveShuffled` is proved to write exactly this. |
| MakeDataset.ProcessEntry | data-preparation/make_dataset.py:154-168 | A present csv is processed under its language name. A missing one is reported and skipped. |
| MakeDataset.EntryOutcome | data-preparation/make_dataset.py:154-168 | One `LANG_FILES` entry: `Processed` with the language's split at the default ratio when the csv is present, `Missing` with its name otherwise. |
| MakeDataset.PrepareDataset | data-preparation/make_dataset.py:113-168 | A missing input directory fails with FileNotFoundError. Otherwise every `LANG_FILES` entry is handled, in order: one outcome per entry, missing csvs skipped. |
| Tokenizer.Letters | training/tokenizer.py:10-63 | The 52 letters, upper and lower case interleaved: "A", "a", ..., "Z", "z". |
| Tokenizer.Digits | training/tokenizer.py:65 | The ten digits "0" to "9". |
| Tokenizer.Symbols | training/tokenizer.py:69 | `LETTERS + DIGITS + ["[UNK]"]`, the vocabulary in code order; `SymbolsDistinct` proves its 63 entries distinct with "[UNK]" last. |
| Tokenizer.Enumerate | training/tokenizer.py:68-70 | `dict(enumerate(xs, start))` maps `start + k` to `xs[k]`, and holds nothing else. |
| Tokenizer.Invert | training/tokenizer.py:71 | The intended inverse of an injective map: same keys as the map's values, and each side undoes the other. |
| Tokenizer.InvertAsWritten | training/tokenizer.py:71 | The comprehension as written: an empty map inverts to the empty map, and any other map raises TypeError at the first unpacking. |
| Tokenizer.New | training/tokenizer.py:67-72 | The constructor with the inverse taken over `.items()`; its fields are stated by `NewFields`. |
| Tokenizer.NewAsWritten | training/tokenizer.py:67-72 | The constructor as written, failing with the comprehension's error, or KeyError if "[UNK]" were missing; `NewAsWrittenRaises` shows it always fails. |
| Tokenizer.Code | training/tokenizer.py:10-72 | The positional code of a character, an independent definition of the vocabulary order. It lies in 1..63 and is 63 exactly for non-alphanumeric characters. |
| Tokenizer.SymbolsDistinct | training/tokenizer.py:68-70 | The vocabulary has 63 distinct entries, `[UNK]` last. |
| Tokenizer.NewFields | training/tokenizer.py:67-72 | `inverse_mapping` maps each `i` in 1..63, and nothing else, to entry `i - 1` of the vocabulary, so code 0 is never given. `mapping` is its exact inverse, and `unk_token` is 63. |
| Tokenizer.NewAsWrittenRaises | training/tokenizer.py:71 | As written, the constructor always raises TypeError. |
| Tokenizer.TokenIsCode | training/tokenizer.py:106 | The dictionary lookup with default `unk_token` gives the positional code of every character. |
| Tokenizer.Token | training/tokenizer.py:106 | `self.mapping.get(c, self.unk_token)` for one character; `TokenIsCode` proves it equal to the positional code. |
| Tokenizer.TokenExamples | training/tokenizer.py:106 | 'A' is 1, 'a' 2, 'B' 3, 'z' 52, '0' 53 and '9' 62. Space, '.', the apostrophe and 'é' are 63. |
| Tokenizer.StringToTokens | training/tokenizer.py:95-106 | One token per character of the decoded (or untouched) input, with no padding and no truncation. Each token is in 1..63, equals the character's code, and is 63 iff the character is not alphanumeric. |
| Tokenizer.AlnumRoundTrip | training/tokenizer.py:68-106 | Alphanumeric text read back through `inverse_mapping` gives back the text. |
| Tokenizer.UnknownReadsBack | training/tokenizer.py:72-106 | A character outside the vocabulary reads back as `[UNK]`. |
| ServerUtils.NormalizeText | service/server/app/core/utils.py:8-17 | The result is a prefix of the collapsed transliteration, of length `min(len, MAX_TEXT_LEN)`. |
| ServerUtils.NormalizeTextShape | service/server/app/core/utils.py:16-17 | The normalized text is collapsed, at most `MAX_TEXT_LEN` long and never longer than the transliteration. |
| ServerUtils.NormalizeTextKeepsOthers | service/server/app/core/utils.py:16 | When nothing is cut, every character outside the separator class reaches the model unchanged, `!` and `?` included. |
| ServerUtils.TrainServeAgree | service/server/app/core/utils.py:16-17 | The served text is the training text up to the mark rewrite and the cut. |
| ServerUtils.NormalizeKeepsMarkExample | service/server/app/core/utils.py:16-17 | "ok!" is served as "ok!", where training sees "ok.". |
| ServerUtils.SliceTo | service/server/app/core/utils.py:29 | Python's `text[:n]`, a prefix, where a negative `n` counts from the end. |
| ServerUtils.ZeroList | service/server/app/core/utils.py:30 | `[0 for _ in range(k)]`: `max(0, k)` zeros. |
| ServerUtils.Ords | service/server/app/core/utils.py:29 | The code point of each character, in order. |
| ServerUtils.StrToCodes | service/server/app/core/utils.py:20-31 | For `n >= 0` the result has exactly `n` entries. For `n < 0` it is the code points of `text[:n]`. Every entry is non-negative. |
| ServerUtils.StrToCodesLayout | service/server/app/core/utils.py:29-30 | The first `n - min(len, n)` codes are 0 and the rest are the code points of `text[:n]`, in order: the tail of a long text is dropped. |
| ServerUtils.StrToCodesExample | service/server/app/core/utils.py:20-31 | "hi" at length 5 is `[0, 0, 0, 104, 105]`. |
| ServerUtils.StrToCodesRoundTrip | service/server/app/core/utils.py:20-31 | Text without NUL that fits comes back from its codes by dropping the leading zeros and applying `chr`. |
| ServerUtils.EncodeNormalizedKeepsAll | service/server/app/core/utils.py:17-30 | Encoding normalized text at the default length never truncates: zeros, then every normalized character. |
| ServiceTypes.NewHandler | service/src/app/core/handlers.py:30-35 | The handler stores the two settings, with defaults `MAX_TEXT_LEN` and 8. |
| ServiceTypes.ValidateInput | service/src/app/core/handlers.py:37-47 | The raw text is refused with InputValidationErr carrying `min_len` iff it is shorter than `min_len`. |
| ServiceTypes.DefaultValidationExamples | service/server/app/core/handlers.py:27-30 | With the default handler, seven characters are refused and eight accepted. |
| SrcHandlers.LanguagesSorted | service/src/app/core/handlers.py:19-26 | `LANGUAGES` has six entries, is strictly increasing in Python's string order (so `sorted` leaves it as listed) and holds no label twice. |
| SrcHandlers.Languages | service/src/app/core/handlers.py:19-26 | The six labels, listed as `sorted` returns them (proved by `LanguagesSorted`). |
| SrcHandlers.LexLessTransitive | service/src/app/core/handlers.py:19-26 | Python's string order is transitive. |
| SrcHandlers.ArgMax | service/src/app/core/handlers.py:90 | `np.argmax`: an index holding the greatest score, with every earlier score strictly smaller, so ties go to the first. |
| SrcHandlers.ArgMaxUnique | service/src/app/core/handlers.py:90 | Only one index has these properties. |
| SrcHandlers.MaxScore | service/src/app/core/handlers.py:89 | `np.max`: a score of the list, at least every score. |
| SrcHandlers.MaxScoreAtArgMax | service/src/app/core/handlers.py:89-90 | The reported confidence is the score at the reported index. |
| SrcHandlers.IdentifyLang | service/src/app/core/handlers.py:67-96 | A short text is refused. A valid one gets a prediction iff the model gives at least one score and the first maximum lies within the six labels. The prediction is that label with its score. A valid text with no scores gets EmptyModelOutput, and one whose first maximum lies past the six labels gets LabelOutOfRange with that index. InputValidationErr is returned only for a short text. |
| SrcHandlers.RefusedBeforeModel | service/src/app/core/handlers.py:80-85 | A refused text never reaches normalization, encoding or the model: the result is the same whatever they are. |
| SrcHandlers.RawLengthIsChecked | service/src/app/core/handlers.py:80-81 | The check is on the raw text: eight separators pass, although they normalize to one space. |
| SrcHandlers.PadLengthIgnored | service/src/app/core/handlers.py:82 | The stored `pad_length` has no effect on the result. |
| SrcHandlers.SixScoresAlwaysLabel | service/src/app/core/handlers.py:88-95 | With one score per label, every accepted text gets a label. |
| SrcHandlers.TieGoesToFirstLabel | service/src/app/core/handlers.py:90 | In the score list `[0.1, 0.4, 0.4, 0.05, 0.05, 0.0]` the first of the two tied maxima, index 1, is chosen. The general tie rule is the last ensures of `SrcHandlers.ArgMax`. |
| ServerHandlers.IdentifyLang | service/server/app/core/handlers.py:32-55 | The result is an error iff the text is too short, and then it is InputValidationErr with `min_len`. Otherwise it is always "Gibberish" with confidence 0.99. |
| ServerHandlers.AnswerIndependentOfText | service/server/app/core/handlers.py:51-54 | Every accepted text, under any transliteration, gets the same answer. |
| ServerHandlers.PadLengthUnused | service/server/app/core/handlers.py:16-18 | The stored `pad_length` has no effect on the result. |

## Left out

- `unidecode` is a parameter, a function from strings to strings. Its transliteration table is not modelled. The idempotence lemma assumes only what it states: it leaves ASCII text alone and makes this text ASCII.
- The numpy generator is a parameter called with `RANDOM_SEED` and the table size. It is required to yield a permutation of the row positions. Mersenne Twister and the shuffle algorithm are not modelled, and neither is the in-place update of `idx`.
- pandas `read_csv` is not modelled. A language's table is the sequence of its text column, rows at positions 0..n-1 (the default index), so the `col_name` lookup is not modelled either.
- File output is not modelled as I/O. A written file is returned as its name and lines, and a language's output as its lists of train and test files. The directory layout, `Path` handling, `mkdir`, the `is_dir`/`is_file` checks and the `print` of a missing csv are left out. The two checks become a boolean and the presence of a key; the print becomes the `Missing` outcome.
- The tflite interpreter (`LITE_MODEL`, `model_call`, `flatten`) is a parameter, a function from the code list to a list of scores. Its shared state and the int32 conversion are not modelled.
- Scores are `real`, not floating point. NaN and the float conversion of the confidence are not modelled.
- `MAX_TEXT_LEN` lives in a constants module that is not part of this model. A stand-in of 256 is used. Most lemmas hold for any value; `ServerUtils.NormalizeKeepsMarkExample` needs it to be at least 3 and `SrcHandlers.RawLengthIsChecked` at least 1.
- service/src/app/core/utils.py is not part of this model. The model-backed handler is modelled with the `normalize_text`/`str_to_codes` of service/server/app/core/utils.py.
- The text of the InputValidationErr message is not modelled, only the `min_len` it reports. The stub handler's `print` of the code length is not modelled.
- `\w` is taken as its ASCII members. Non-ASCII letters would be word characters in Python, but the transliteration normally leaves none.
- A Dafny `char` is a Unicode scalar value, so a Python string holding a lone surrogate cannot be represented. `ord` accepts such a character, and `chr` can produce one from a code in 0xD800..0xDFFF; `ServerUtils.Chr` returns `None` for those codes instead.
- An empty csv cell arrives from pandas as a float NaN, and `process_text` (data-preparation/make_dataset.py:31) then raises. Rows here are always strings, so that failure is not modelled.
- FastAPI routes, the pydantic request model, the application start-up and the `fire` command line are not modelled: they are HTTP and CLI plumbing.

## Findings

| source | as written | input that shows it | evidently intended | confidence | as-written member | corrected member |
|---|---|---|---|---|---|---|
| training/tokenizer.py:71 | The dict comprehension iterates `self.__inverse_mapping` itself. That yields its int keys, and unpacking the first key into `k, v` raises TypeError. | Any construction `CharTokenizer()`, since the map always has 63 entries. | Iterate the items, so that `mapping` sends each symbol to its code, the inverse of `inverse_mapping`. | not executed | Tokenizer.NewAsWrittenRaises | Tokenizer.NewFields |
