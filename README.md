# Armenian romanization: key parser, segmenter, vocabulary and dataset in Dafny

This project models the core of a toolkit that makes artificially romanized
Armenian text and turns it into training data for a character-level model.

**Romanizer** (`Preprocessing/generate_romanization.py`):
- `from_file` reads a romanization key. It skips comment lines and matches
  every other stripped line against `(.*) --- (.*);\s*(.*)?`. The table maps
  each grapheme to its candidate transliterations and their cumulative weights,
  which are spread by `np.linspace` and split by `prop_typical`.
- The constructor adds capitalized (and, for graphemes of several characters,
  upper-case) variants of every alphabetic grapheme. It then stores the
  graphemes of several characters in a trie of nested dicts.
- `segment_str` cuts a string into the longest graphemes the trie knows, or
  into single characters.
- `get_trans_char` / `get_trans_str` transliterate each segment by
  `random.choices` over the cumulative weights.

**Vocabulary** (`vocab.py`, and the copy in `Model/vocab.py`):
- It lists the specials, then the tokens of a `Counter` that are frequent
  enough, in the counter's order.
- It maps each token back to its index, and falls back on `<UNK>` when
  looking a token up.
- `chars_from_files` counts the characters of the lines of some files.

**Dataset** (`Model/data.py`):
- `RomanizationDataset.from_files` turns parallel source and target files into
  pairs of index lists.
- `__getitem__` / `__len__` are list indexing and length.
- `pad_batches` lengthens every list of a batch in place with the pad index 0.

How the Python is represented:
- A Python `dict` or `Counter` is an `OrderedDicts.Dict`: a map together with
  its key order, because the order decides which entry wins and which index a
  token gets.
- The `Romanizer`, the `Counter`, the `Vocabulary`, the dataset and the index
  lists that `pad_batches` mutates are classes. Their methods update fields in
  place.
- Each loop of the source is a method with its invariants, proved against a
  specification function. The properties are lemmas about those functions.

## Model

| member | source | states |
|---|---|---|
| KeyFile.FindLast | Preprocessing/generate_romanization.py:19 | the result is an occurrence of the pattern ending by the limit, and no later one exists; `None` means there is none at all |
| KeyFile.FindLastChar | Preprocessing/generate_romanization.py:19 | the result is the index of the last occurrence of the character; `None` means it does not occur |
| KeyFile.MatchKeyLine | Preprocessing/generate_romanization.py:19 | a match splits the line as grapheme + ` --- ` + typical group + `;` + rest, with no `;` in the rest |
| KeyFile.MatchKeyLineExists | Preprocessing/generate_romanization.py:19 | the key-line pattern fails exactly when no ` --- ` is followed later by a `;` |
| KeyFile.MatchKeyLineGroups | Preprocessing/generate_romanization.py:19 | a match splits the line into grapheme, ` --- `, typical group, `;`, whitespace and rest; both greedy groups are as long as possible |
| KeyFile.Linspace | Preprocessing/generate_romanization.py:183-184 | `np.linspace(lo, hi, n + 1)[1:]` has `n` points |
| KeyFile.LinspaceAt | Preprocessing/generate_romanization.py:183-184 | point `i` is `lo + (i + 1)(hi - lo)/n` |
| KeyFile.LinspaceLast | Preprocessing/generate_romanization.py:183-184 | the last point is `hi` |
| KeyFile.LinspaceMonotone | Preprocessing/generate_romanization.py:183-188 | the points never fall when `lo <= hi`, and rise strictly when `lo < hi` |
| KeyFile.LinspaceBounds | Preprocessing/generate_romanization.py:183-188 | every point lies in `[lo, hi]`, above `lo` when `lo < hi` |
| KeyFile.Weights | Preprocessing/generate_romanization.py:182-196 | one cumulative weight per typical and less typical candidate |
| KeyFile.EvenWeights | Preprocessing/generate_romanization.py:182-184 | with no less typical candidate the weights are `i/n` for `i = 1..n` |
| KeyFile.SplitWeights | Preprocessing/generate_romanization.py:186-196 | otherwise the typical candidates share `prop_typical` and the less typical ones share the rest |
| KeyFile.WeightsLast | Preprocessing/generate_romanization.py:182-196 | the last cumulative weight is 1 |
| KeyFile.WeightsIncrease | Preprocessing/generate_romanization.py:182-196 | the weights rise strictly for `0 < prop < 1` and never fall for `0 <= prop <= 1` |
| KeyFile.Typical | Preprocessing/generate_romanization.py:176-178 | there is at least one typical candidate, each free of `,` and of surrounding whitespace |
| KeyFile.LessTypical | Preprocessing/generate_romanization.py:182-192 | there are less typical candidates exactly when something other than whitespace follows the `;`, each free of `,` and of surrounding whitespace |
| KeyFile.Entry | Preprocessing/generate_romanization.py:176-199 | the entry has one weight per candidate, at least one candidate and last weight 1; the typical candidates come first, then the less typical ones |
| KeyFile.ParseKeyLine | Preprocessing/generate_romanization.py:166-199 | a line starting with `#` never yields an entry |
| KeyFile.MatchedKeyNonEmpty | Preprocessing/generate_romanization.py:169-174 | on a stripped line the matched grapheme is never empty |
| KeyFile.ParsedEntryWellFormed | Preprocessing/generate_romanization.py:166-199 | a parsed line gives a non-empty grapheme and an entry that sampling accepts |
| KeyFile.StripNoNewline | Preprocessing/generate_romanization.py:163-169 | a line as `readlines` yields it has no newline once stripped |
| KeyFile.Table | Preprocessing/generate_romanization.py:199 | the table of parsed lines is a well-formed ordered dict |
| KeyFile.TableLastWins | Preprocessing/generate_romanization.py:199 | an entry survives when no later entry sets the same grapheme |
| KeyFile.TableKeys | Preprocessing/generate_romanization.py:199 | every grapheme of the table comes from some entry |
| KeyFile.TableWellFormed | Preprocessing/generate_romanization.py:199 | entries that all have non-empty graphemes and accepted weights give such a table |
| KeyFile.ParseLines | Preprocessing/generate_romanization.py:164-199 | the table built from the key's lines is a well-formed ordered dict |
| KeyFile.ParseLinesLastWins | Preprocessing/generate_romanization.py:166-199 | the entry of a grapheme is the one parsed from the last line that defines it |
| KeyFile.ParseLinesOnlyParsedKeys | Preprocessing/generate_romanization.py:166-199 | every grapheme of the table is the grapheme of some line of the key |
| KeyFile.ParseLinesWellFormed | Preprocessing/generate_romanization.py:166-199 | every entry of a parsed key has a non-empty grapheme and is accepted by sampling |
| KeyFile.FromLines | Preprocessing/generate_romanization.py:163-199 | the loop over the key's lines builds exactly the parsed table |
| CaseExpansion.CapitalizeItems | Preprocessing/generate_romanization.py:49-50 | the capitalized candidate list has as many items as the original |
| CaseExpansion.UpperItems | Preprocessing/generate_romanization.py:56-57 | the upper-cased candidate list has as many items as the original |
| CaseExpansion.ExpandKey | Preprocessing/generate_romanization.py:46-58 | one turn adds exactly the grapheme's variants as keys and keeps the existing key order |
| CaseExpansion.ExpandAll | Preprocessing/generate_romanization.py:44-58 | the loop keeps every original grapheme |
| CaseExpansion.ExpandAllKeys | Preprocessing/generate_romanization.py:44-58 | after the loop the keys are the originals plus the variants of the visited graphemes |
| CaseExpansion.ExpandCase | Preprocessing/generate_romanization.py:44-58 | the loop visits the keys as listed before it starts |
| CaseExpansion.ExpandAllOrder | Preprocessing/generate_romanization.py:44-58 | original graphemes keep their order, and variants follow them |
| CaseExpansion.ExpandAllKeepsOthers | Preprocessing/generate_romanization.py:44-58 | a grapheme that is no visited grapheme's variant keeps its entry |
| CaseExpansion.CaseVariants | Preprocessing/generate_romanization.py:48-55 | a word of small letters yields a capitalized form and an upper-case form, both alphabetic and neither all small |
| CaseExpansion.VariantsDistinct | Preprocessing/generate_romanization.py:48-55 | distinct small words have distinct variants, and no capitalized variant is an upper-case one |
| CaseExpansion.ExpandKeyWrites | Preprocessing/generate_romanization.py:47-58 | one turn writes the re-cased entry of the grapheme into its variants |
| CaseExpansion.StepCleanly | Preprocessing/generate_romanization.py:46-58 | a turn whose writes collide with nothing keeps what earlier turns wrote |
| CaseExpansion.ExpandLowercase | Preprocessing/generate_romanization.py:44-58 | with an all-lowercase key, the originals keep their entries and each variant holds its own original's re-cased candidates with the same weights |
| CaseExpansion.CapitalEntryReplaced | Preprocessing/generate_romanization.py:45-51 | a key listing both `a` and `A` loses its own entry for `A` |
| CaseExpansion.ExpandAllWellFormed | Preprocessing/generate_romanization.py:48-58 | variants keep the weights and the number of candidates, so every entry stays acceptable to sampling |
| CaseExpansion.ExpandKeyWellFormed | Preprocessing/generate_romanization.py:48-58 | one turn keeps every entry acceptable to sampling |
| GraphemeTrie.Build | Preprocessing/generate_romanization.py:67-77 | the trie's nodes are exactly the prefixes of the graphemes, and its `END` entries are exactly the graphemes, each stored under its own path |
| GraphemeTrie.Insert | Preprocessing/generate_romanization.py:69-77 | inserting one grapheme adds every node on its path and stores it under `END` at the last node |
| GraphemeTrie.WalkReachesKey | Preprocessing/generate_romanization.py:67-77 | walking an indexed grapheme never falls off the trie and ends at a node holding it |
| Segmenter.MatchLen | Preprocessing/generate_romanization.py:106-121 | the length of the longest grapheme of several characters that starts the text within the bound, or 0 |
| Segmenter.MatchLenBeyond | Preprocessing/generate_romanization.py:109-113 | looking past the point where no grapheme can end changes nothing |
| Segmenter.FirstLen | Preprocessing/generate_romanization.py:100-121 | the first segment is between 1 character and the whole text long |
| Segmenter.Segments | Preprocessing/generate_romanization.py:90-124 | the segments are empty exactly when the text is |
| Segmenter.SegmentsConcat | Preprocessing/generate_romanization.py:90-124 | joining the segments gives the text back |
| Segmenter.SegmentsAreGraphemes | Preprocessing/generate_romanization.py:90-124 | every segment is a single character or a grapheme of several characters |
| Segmenter.LongestFirst | Preprocessing/generate_romanization.py:100-121 | the first segment is the longest grapheme of several characters that starts the text, or its first character when none does |
| Segmenter.NoKeysSingleChars | Preprocessing/generate_romanization.py:99-102 | text where no such grapheme starts is cut into its characters |
| Romanization.LongOf | Preprocessing/generate_romanization.py:60-65 | the graphemes of several characters among the keys, in key order; once each when the keys are distinct |
| Romanization.LongCharsList | Preprocessing/generate_romanization.py:60-65 | the loop builds exactly that filtered list of the table's keys |
| Romanization.LongCharsListed | Preprocessing/generate_romanization.py:60-65 | the listed graphemes are those of several characters of the table |
| Romanization.Romanizer.constructor | Preprocessing/generate_romanization.py:24-77 | the table is the case-expanded key and the trie indexes its graphemes of several characters |
| Romanization.Romanizer.SegmentStr | Preprocessing/generate_romanization.py:90-124 | the method gives the longest-match segmentation |
| Romanization.Segment | Preprocessing/generate_romanization.py:96-124 | the outer loop emits the segmentation of the whole text |
| Romanization.NextSegment | Preprocessing/generate_romanization.py:100-121 | one turn emits the first segment of the rest of the text |
| Romanization.Candidates | Preprocessing/generate_romanization.py:106-121 | the last collected candidate is the first segment; with none, the segment is one character |
| Romanization.Walk | Preprocessing/generate_romanization.py:106-113 | the walk stops where the input ends or leaves the trie, having collected the longest grapheme passed last |
| Romanization.WalkStep | Preprocessing/generate_romanization.py:109-113 | a node holding `END` one step further is the new longest match, and otherwise the match is unchanged |
| Romanization.OffTrie | Preprocessing/generate_romanization.py:109 | once the path leaves the trie, no longer grapheme starts there |
| Romanization.NoLongChar | Preprocessing/generate_romanization.py:100-102 | a character that starts no path is a segment of its own |
| Romanization.SegmentsStep | Preprocessing/generate_romanization.py:120-121 | moving past the emitted segment keeps the outer loop's invariant |
| Romanization.Romanizer.GetTransStr | Preprocessing/generate_romanization.py:128-136 | the result is the transliteration of the segmentation, one draw per sampled segment |
| Romanization.FromFile | Preprocessing/generate_romanization.py:146-201 | a romanizer loaded from a key holds the case-expanded parsed table |
| Romanization.FromFileNeverFails | Preprocessing/generate_romanization.py:146-201 | transliterating with a romanizer loaded from a key never raises |
| Sampler.BisectRight | Preprocessing/generate_romanization.py:85-86 | the search stays within `lo..hi` |
| Sampler.BisectRightFirstAbove | Preprocessing/generate_romanization.py:85-86 | on weights that never fall, the search finds the first weight above the point |
| Sampler.PickIndex | Preprocessing/generate_romanization.py:85-86 | the picked index is a valid candidate index |
| Sampler.Choose | Preprocessing/generate_romanization.py:85-86 | mismatched lengths raise `ValueError`, no candidates raise `IndexError`, a last weight that is not positive raises `ValueError`, and a result is always one of the candidates |
| Sampler.SampleIsInverseCdf | Preprocessing/generate_romanization.py:85-86 | candidate `i` is picked exactly when the draw lies in `[w[i-1], w[i])` |
| Sampler.TransChar | Preprocessing/generate_romanization.py:80-88 | `<null>` gives the empty string, an unknown grapheme gives itself, a known one is sampled |
| Sampler.DrawsUsed | Preprocessing/generate_romanization.py:133-134 | no more draws than segments are used |
| Sampler.LastDraw | Preprocessing/generate_romanization.py:133-134 | a sampled last segment takes the first draw the others left unused |
| Results.Append | Preprocessing/generate_romanization.py:134 | both results succeed exactly when both parts do, the values are joined, and the first error wins |
| Results.AppendAssociative | Preprocessing/generate_romanization.py:134 | appending results is associative |
| Results.AppendEmpty | Model/data.py:45 | nothing built first leaves the second result unchanged |
| Sampler.Translit | Preprocessing/generate_romanization.py:128-136 | the only errors are `ValueError` and `IndexError`, and only a segment that is sampled can raise one |
| Sampler.TranslitAppend | Preprocessing/generate_romanization.py:128-136 | transliterating two runs is transliterating each, the second from the first unused draw |
| Sampler.DrawsUsedAppend | Preprocessing/generate_romanization.py:133-134 | draws add up over concatenated runs |
| Sampler.UnmappedUnchanged | Preprocessing/generate_romanization.py:87-88 | text without table graphemes or `<null>` comes back unchanged and uses no draws |
| Sampler.NullCandidateVerbatim | Preprocessing/generate_romanization.py:81-86 | the grapheme `<null>` is dropped, but a sampled candidate `<null>` is returned as text |
| KeyFile.KeyLineMatch | Preprocessing/generate_romanization.py:19 | the line `k --- k; c` matches with groups `k`, `k` and `c` |
| KeyFile.KeyLineStripped | Preprocessing/generate_romanization.py:169 | the line `k --- k; c` is unchanged by `strip` |
| KeyFile.KeyLineWeights | Preprocessing/generate_romanization.py:187-196 | one typical and one less typical candidate at 0.9 get the weights 0.9 and 1.0 |
| KeyFile.KeyLineEntry | Preprocessing/generate_romanization.py:176-199 | with `prop_typical` 0.9 that line gives `k` weight 0.9 and `c` weight 1.0 |
| KeyFile.KeyLineParsed | Preprocessing/generate_romanization.py:166-199 | the line `k --- k; c` parses to `k` with candidates `k`, `c` and weights 0.9, 1.0 |
| Sampler.KeyLineChoice | Preprocessing/generate_romanization.py:85-86 | sampling that entry gives `k` for a draw below 0.9 and `c` otherwise |
| Sampler.TranslitNeverFails | Preprocessing/generate_romanization.py:80-88 | when every entry is acceptable, transliteration never raises |
| Counters.Count | vocab.py:44 | a counted token reads as its count and any other token as 0 |
| Counters.TallyCounts | vocab.py:91 | `update` adds to each token's count the number of its occurrences |
| Counters.TallyKeys | vocab.py:91 | `update` adds exactly the items as keys |
| Counters.TallyOrder | vocab.py:91 | keys already counted keep their place |
| Counters.TallyAppend | vocab.py:89-91 | two updates in a row equal one update with both sequences |
| Counters.TallyLast | vocab.py:91 | the last item is counted last |
| Counters.Tally | vocab.py:91 | an update leaves a well-formed ordered dict |
| Counters.Bump | vocab.py:91 | one more occurrence leaves a well-formed ordered dict |
| Counters.Counter.constructor | vocab.py:84 | `Counter()` is empty |
| Counters.Counter.Get | vocab.py:44 | a token never counted reads as 0 |
| Counters.Counter.Update | vocab.py:91 | the loop leaves the counter equal to the tally of the items |
| Counters.Counter.Delete | vocab.py:40-41 | deleting removes the key and ignores a missing one |
| Vocab.RemoveAll | vocab.py:40-41 | deleting the specials leaves exactly the other keys, with their counts |
| Vocab.Frequent | vocab.py:43-45 | a token is kept exactly when it is a counted key with count at least `min_freq` |
| Vocab.FrequentDistinct | vocab.py:43-45 | the frequent tokens are listed once each |
| Vocab.IndexMap | vocab.py:47-48 | the map's keys are exactly the listed tokens |
| Vocab.IndexMapLast | vocab.py:47-48 | a token listed twice maps to its last index |
| Vocab.IndexMapExact | vocab.py:47-48 | without duplicates the map is the exact inverse of the list |
| Vocab.IndexOf | vocab.py:57-65 | gives the token's index, else `<UNK>`'s, else `KeyError` exactly when neither is listed |
| Vocab.Encode | vocab.py:67-73 | the only error raised is `KeyError` |
| Vocab.EncodeSpec | vocab.py:67-73 | a token list encodes exactly when each token has an index, and then index by index |
| Vocab.Vocabulary.constructor | vocab.py:31-48 | lists the specials, then the frequent tokens of the caller's counter (minus the specials) in counter order; the map is that list's inverse |
| Vocab.Vocabulary.Len | vocab.py:50-55 | every index handed out is below the length |
| Vocab.Vocabulary.GetIndex | vocab.py:57-65 | the map lookup agrees with the list-based index |
| Vocab.Vocabulary.TokensToIndices | vocab.py:67-73 | the map-based encoding agrees with the list-based encoding |
| Vocab.LenBoundsIndices | vocab.py:47-55 | every mapped index is a valid list index |
| Vocab.DeleteAll | vocab.py:40-41 | the deletion loop leaves the counter without the specials |
| Vocab.FrequentKeys | vocab.py:43-45 | the frequency loop appends exactly the frequent tokens in counter order |
| Vocab.IndexMapOf | vocab.py:47-48 | the comprehension builds the index map of the list |
| Vocab.SpecialsListedOnce | vocab.py:38-45 | no special is listed after the specials |
| Vocab.ExactInverse | vocab.py:38-48 | with distinct specials, `token_to_index` is the exact inverse of `index_to_token` |
| Vocab.Chars | vocab.py:90 | `list(s)` has one item per character |
| Vocab.CharsAt | vocab.py:90 | item `i` of `list(s)` is the one-character string of character `i` |
| Vocab.CharsAppend | vocab.py:90 | `list` distributes over concatenation |
| Vocab.CharsCount | vocab.py:90 | counting `list(s)` counts each character as a one-character string, and nothing else |
| Vocab.CharCounts | vocab.py:84-93 | the counter holds each character's number of occurrences in the text with the line ends stripped |
| Vocab.OneLineText | vocab.py:90 | the file `["a b\n"]` has the text `a b` |
| Vocab.SpaceCounted | vocab.py:84-93 | a space is counted and a line end is not |
| Vocab.CharsFromFiles | vocab.py:75-93 | the counter is the tally of all stripped lines minus the specials, and the vocabulary is built from it |
| Vocab.CountLines | vocab.py:89-91 | one file's loop tallies its stripped lines |
| ModelVocab.LinesTextNoSpace | Model/vocab.py:91 | cleaned lines hold no whitespace and keep every other character's count |
| ModelVocab.FilesTextNoSpace | Model/vocab.py:87-95 | the same over all the files |
| ModelVocab.NoWhitespaceCounted | Model/vocab.py:85-97 | no whitespace character is counted; every other character is counted as often as it occurs |
| ModelVocab.CharsFromFiles | Model/vocab.py:76-97 | the counter is the tally of the cleaned lines minus the specials, and the vocabulary is built from it |
| ModelVocab.CountLines | Model/vocab.py:93-95 | one file's loop tallies its cleaned lines |
| Data.IndexList.constructor | Model/data.py:55-56 | a fresh list holds the given indices |
| Data.RomanizationDataset.constructor | Model/data.py:22-27 | the dataset keeps the data and both vocabularies |
| Data.RomanizationDataset.Len | Model/data.py:32-33 | the length is the number of data, and exactly the indices from `-len` to `len - 1` are accepted |
| Data.RomanizationDataset.GetItem | Model/data.py:29-30 | Python indexing: negatives count from the end, anything else raises `IndexError` |
| Data.RomanizationDataset.NegativeIndex | Model/data.py:29-30 | index `i - len` names the same datum as `i` |
| Data.PadTo | Model/data.py:77-78 | the list keeps its items, then holds zeros up to length `n` |
| Data.PadToIdempotent | Model/data.py:76-82 | padding twice to the same length pads once |
| Data.PadList | Model/data.py:77-78 | the while loop pads the list object in place |
| Data.MaxLen | Model/data.py:73-74 | the result is the length of the longest list |
| Data.Srcs | Model/data.py:70 | the source list objects, in order |
| Data.Tgts | Model/data.py:71 | the target list objects, in order |
| Data.Items | Model/data.py:84 | the contents of the lists, in order |
| Data.PadBatches | Model/data.py:67-84 | an empty batch raises `ValueError`; otherwise sources pad to the longest source and targets to the longest target, measured before padding |
| Data.PadBoth | Model/data.py:76-82 | sources are padded first, then targets |
| Data.PadEach | Model/data.py:76-78 | every list of the side is padded, even if met twice |
| Data.Padded | Model/data.py:76-82 | a list ends up as its indices before padding followed by zeros only, and a list of neither side is left alone |
| Data.PaddedRectangular | Model/data.py:67-84 | a list that is not both a source and a target pads to its side's longest length |
| Data.SeparateAppend | Model/data.py:57-58 | appending data that share no list with the earlier ones keeps the data separate |
| Data.SeparateBatch | Model/data.py:67-84 | in a batch of separate data no list is both a source and a target, so every batch of such data pads to a rectangle |
| Data.AppendAhead | Model/data.py:45-58 | rows gathered so far, then one more part, then the rest, is the gathered rows and that part, then the rest |
| Data.LineChars | Model/data.py:52-53 | every token is one character other than whitespace, no more tokens than characters |
| Data.LineCharsCounts | Model/data.py:52-53 | each character other than whitespace yields as many tokens as it occurs in the line |
| Data.LineRow | Model/data.py:52-56 | a line pair encodes, or raises `KeyError` |
| Data.FileRows | Model/data.py:50-56 | a file pair raises only `IndexError` or `KeyError` |
| Data.Single | Model/data.py:55-56 | one row as a list of rows, with the same error |
| Data.FileRowsSpec | Model/data.py:50-56 | rows exist exactly when the target file has a line for every source line and each pair encodes; then one row per source line |
| Data.FileRowsOk | Model/data.py:50-56 | the success condition of one file pair |
| Data.FileRowsValues | Model/data.py:50-56 | row `j` is the encoding of line pair `j` |
| Data.AllRows | Model/data.py:45-56 | all files together raise only `IndexError` or `KeyError` |
| Data.AllRowsSpec | Model/data.py:45-56 | rows exist exactly when every source file has a target file and each pair succeeds; then one row per source line |
| Data.PadIndexZero | Model/data.py:69 | `PAD` gets index 0, the value `pad_batches` pads with |
| Data.HoldsAppend | Model/data.py:55-56 | data holding two runs of rows hold the concatenated rows |
| Data.FromFiles | Model/data.py:35-58 | succeeds exactly when the rows exist; the error is the rows' error; each datum holds its row in two new lists, and no list is shared between or within data; vocabularies come from `chars_from_files` with `[PAD]` |
| Data.BuildVocab | Model/vocab.py:76-97 | the vocabulary lists `PAD`, then the frequent characters of the files |
| Data.Convert | Model/data.py:45-56 | the loop over file pairs produces one datum per row in new, unshared lists, or the rows' error |
| Data.FileData | Model/data.py:50-56 | the loop over one file pair's lines does the same for its rows |
| Data.AllRowsStep | Model/data.py:46-56 | one more file pair continues the rows |
| Data.FileRowsStep | Model/data.py:50-56 | one more line pair continues the rows |
| Data.FromFilesAsWritten | Model/data.py:39-42 | the method as written raises `AttributeError` before reading any file |
| Data.MethodNotDefined | Model/data.py:39 | `Vocabulary` defines no method `from_files` |
| Data.ClassAttribute | Model/data.py:39 | a class attribute lookup succeeds exactly for a defined method, and otherwise raises `AttributeError` |
| PyStrings.RemoveSpacesCounts | Model/vocab.py:91 | `''.join(s.split())` drops whitespace and keeps every other character's count |
| PyStrings.RemoveSpaces | Model/vocab.py:91 | no whitespace is left, and the result is no longer than the input |
| PyStrings.TrimStart | Preprocessing/generate_romanization.py:169 | exactly the leading characters to drop are removed |
| PyStrings.Strip | Preprocessing/generate_romanization.py:169 | `strip` keeps only characters of the input and leaves no whitespace at either end |
| PyStrings.TrimEnd | vocab.py:90 | exactly the trailing characters to drop are removed |
| PyStrings.SplitOn | Preprocessing/generate_romanization.py:177-178 | `split(sep)` gives at least one piece, none containing `sep`, that join back to the input |
| PyStrings.SplitNoSeparator | Preprocessing/generate_romanization.py:177-178 | a string without the separator splits into itself |
| PyStrings.SplitPrefix | Preprocessing/generate_romanization.py:177-178 | a separator-free first piece is split off first |
| PyStrings.StripAll | Preprocessing/generate_romanization.py:177-178 | each item is stripped, and none is lost |
| PyStrings.UpperChar | Preprocessing/generate_romanization.py:55-57 | a small letter becomes a capital, and anything else is unchanged |
| PyStrings.Upper | Preprocessing/generate_romanization.py:55-57 | `upper` keeps the length |
| PyStrings.UpperAt | Preprocessing/generate_romanization.py:55-57 | `upper` works character by character |
| PyStrings.LowerAt | Preprocessing/generate_romanization.py:48-50 | `lower` works character by character |
| PyStrings.Capitalize | Preprocessing/generate_romanization.py:48-50 | `capitalize` keeps the length |
| PyStrings.SplitJoin | Preprocessing/generate_romanization.py:177-178 | joining the parts of `split(sep)` with `sep` gives the string back |
| OrderedDicts.Dict.Set | Preprocessing/generate_romanization.py:199 | a new key goes last and an existing key keeps its place |
| OrderedDicts.Dict.Remove | vocab.py:41 | the key is gone and the remaining keys keep their order |

## Left out

- `Romanizer.romanize_file`, the `__main__` blocks and all file I/O. A file is
  modelled as the list of lines `readlines` returns: a newline appears only at
  the end of a line. The `Path(f).is_file()` check of `chars_from_files` is
  left out, since a file that is not there contributes no lines.
- The `encoding` parameters. Strings are sequences of code points.
- The random number generator. Each sampled grapheme consumes the next given
  draw `u` in `[0, 1)`, and `random.choices` is modelled as
  `bisect_right(weights, u * weights[-1], 0, n - 1)`. Its `isfinite` check on
  the total is left out, since the weights are exact reals.
- Floating point. `np.linspace` and the weights are exact real arithmetic, so
  the last weight is exactly 1 and rounding is not modelled.
- Unicode case mapping. `isalpha`, `capitalize` and `upper` are modelled for
  ASCII letters and the Armenian alphabet (U+0531–U+0556 and U+0561–U+0586)
  only.
- The regular-expression engine. The key-line pattern is modelled by its
  greedy match: the last `;`, and the last ` --- ` before it.
- torch's `Dataset`, `DataLoader`, shuffling and `Tensor`. The batch that
  `pad_batches` returns holds the padded lists as values.
- `Preprocessing/clean_and_split_data.py` and
  `Preprocessing/preprocess_wikidump.py` are not part of this model.
- The default `specials = []` of `Vocabulary.__init__`. It is a shared mutable
  default, but the constructor never mutates it, so nothing depends on it.
- Vocab.IndexOf: `<UNK>` is recorded in `specials` but never added to
  `index_to_token`, so looking up an unknown token raises `KeyError` unless the
  counter or the caller's specials bring `<UNK>` in. This is modelled as the
  source does it.
- Romanization.Romanizer.constructor: the source stores the caller's dict
  (Preprocessing/generate_romanization.py:41) and then writes the case
  variants into that same dict (lines 48 and 55), so the caller sees them
  too. The model takes the table as a value, so that sharing is not shown.
  `from_file` passes a dict of its own, so no modelled caller observes it.
- Data.SeparateBatch: a batch is given as a sequence of data. The choice of
  data by torch's `DataLoader` is not modelled, so the model does not show
  that a batch drawn from one dataset repeats no datum.
- CaseExpansion.ExpandAll: its own contract only states that the original keys
  are kept. The exact key set is stated separately by
  `CaseExpansion.ExpandAllKeys`.

## Findings

| source | as written | input that shows it | evidently intended | confidence | as-written member | corrected member |
|---|---|---|---|---|---|---|
| Model/data.py:39-42 | `from_files` builds both vocabularies with `Vocabulary.from_files`, which `Vocabulary` does not define | any call of `RomanizationDataset.from_files`, for example with no files at all | `Vocabulary.chars_from_files(files, specials=[PAD], min_freq=min_freq)`, the class's file-reading builder | not executed | Data.FromFilesAsWritten | Data.FromFiles |
