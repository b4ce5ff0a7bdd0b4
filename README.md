# Data pipeline recipes: a Dafny model

This project models the parts of the data-pipeline recipes that compute something:

- the CSV engine: column profiling, dataset cleaning and group-by aggregation (`recipes/csv_processing/csv_pipeline.py`);
- the text utilities: the character-level tail of `clean_text`, `deduplicate_paragraphs` and `chunk_text` (`recipes/data_cleaning/text_cleaner.py`);
- record projection and the paging loop of the API ingestion recipe (`recipes/api_ingestion/api_to_dataset.py`).

A CSV row is a Python dict from column name to cell text. It is modelled as an ordered association list with distinct keys (`Dicts.Dict`), because column order is visible in the output of fill, drop and rename. `d[k] = v` keeps an existing key where it is and appends a new one (`Dicts.Set`). A dict comprehension is a run of such assignments (`Dicts.Assign`).

The loops of the source are methods with loop invariants:

- `ProfileColumn` and `ProfileDataset`;
- `StripWhitespace`, `RemoveDuplicateRows`, `FillColumn` and `FillNulls`;
- `BuildGroups` and `ReduceGroups`, the two loops of `aggregate`;
- `KeepFirstParagraphs` and `ChunkText`;
- `FetchPaginated`.

`CleanDataset` and `Aggregate` are methods without a loop of their own. They run those steps in the source's order.

Each method is proved equal to a specification function. The source's promises are then proved about that function as lemmas. Comprehensions and straight-line string code are functions.

Python values have value semantics here. `clean_dataset`'s `[dict(row) for row in rows]` copy therefore needs no separate proof: the caller's rows can never change.

Modules:

- `Seqs`, `Options`: sequence lemmas, `Option`/`Result`.
- `Strings`: `strip`, `lower`, `split()`, `split(sep)`, `join`, one-character `replace`.
- `Numbers`: decimal digits, `str(int)`, and a simplified `float(str)`.
- `Dicts`: ordered dicts.
- `FirstOccurrence`: the "keep the first element per key" loop, shared by row and paragraph deduplication.
- `StringOrder`: Python's `<` on strings and `sorted`.
- `CsvProfile`, `CsvClean`, `CsvAggregate`: the CSV engine.
- `TextCleaner`: the text utilities.
- `Json`, `ApiIngestion`: decoded JSON values, `normalize_records` and `fetch_paginated`.

The network is a parameter. `FetchPaginated` takes `fetch: string -> Result<Json, string>`, the decoded response for a URL or the error `fetch_json` raises. It also returns the list of URLs it requested, so the page numbers it asks for can be stated.

## Model

| member | source | states |
|---|---|---|
| CsvProfile.ColumnValues | recipes/csv_processing/csv_pipeline.py:82 | one value per row: the row's cell for the column, or `""` when the row lacks it |
| CsvProfile.NonBlankCount | recipes/csv_processing/csv_pipeline.py:37-39 | non-blank values plus blank positions make up all values, so `non_null + null_count == total_rows` |
| CsvProfile.NonBlankMembers | recipes/csv_processing/csv_pipeline.py:38 | a value is kept as non-empty exactly when it occurs and is not blank (`v and v.strip()`) |
| CsvProfile.NullPctBounds | recipes/csv_processing/csv_pipeline.py:46 | the null percentage is 0 for an empty column, lies between 0 and 100, and is `null_count / total * 100` otherwise |
| CsvProfile.ProfileColumn | recipes/csv_processing/csv_pipeline.py:35-72 | the loop that collects the parsed numbers yields the profile `ProfileOf` defines |
| CsvProfile.ProfileCounts | recipes/csv_processing/csv_pipeline.py:37-47 | column name and total; `null_count` is the number of blank positions; `non_null + null_count == total`; `unique_count` is the number of distinct non-blank values |
| CsvProfile.ProfileType | recipes/csv_processing/csv_pipeline.py:51-59 | numeric iff some value parses and parsed values are strictly more than half the non-blank ones; exactly half is categorical |
| CsvProfile.ProfileNumeric | recipes/csv_processing/csv_pipeline.py:58-65 | min and max are parsed values bounding all of them, the mean lies between them, and stdev is present iff at least two values parse |
| CsvProfile.ProfileCategorical | recipes/csv_processing/csv_pipeline.py:66-70 | `top_5` has at most 5 entries, values with their counts; `sample` is the first at most 3 non-blank values |
| CsvProfile.MeanBounds | recipes/csv_processing/csv_pipeline.py:62 | the mean of the parsed numbers lies between their minimum and maximum |
| CsvProfile.Tally | recipes/csv_processing/csv_pipeline.py:68 | `Counter(non_empty)`: each distinct value, in first-occurrence order, with its number of occurrences |
| CsvProfile.Ranking | recipes/csv_processing/csv_pipeline.py:69 | a stable ranking by descending count: a permutation of the first n tally positions, ordered by count then first occurrence |
| CsvProfile.MostCommonSpec | recipes/csv_processing/csv_pipeline.py:69 | `most_common(n)`: `min(n, #distinct)` distinct values with their true counts, in non-increasing count order, ties in first-occurrence order, and no value left out has a higher count than one kept |
| CsvProfile.ProfileDataset | recipes/csv_processing/csv_pipeline.py:75-89 | the profiles dict is keyed by the distinct headers in order, and each header maps to the profile of its column values |
| CsvProfile.ProfilesGet | recipes/csv_processing/csv_pipeline.py:81-84 | every header maps to the profile of its own column values, also a header listed twice |
| CsvClean.StripWhitespace | recipes/csv_processing/csv_pipeline.py:109-114 | the nested loop strips every cell of every row in place: the result is `StripRows` |
| CsvClean.GetStripRow | recipes/csv_processing/csv_pipeline.py:110-113 | stripping keeps the keys in order and maps every value through `strip()` |
| CsvClean.RemoveDuplicateRows | recipes/csv_processing/csv_pipeline.py:117-128 | the `seen`-set loop keeps the first row for each set of items |
| CsvClean.DeduplicatedFacts | recipes/csv_processing/csv_pipeline.py:117-128 | no two kept rows hold the same items; the kept rows are the first occurrences, in order, form a subsequence, and deduplicating again changes nothing |
| Dicts.AsMapEqualIffSameItems | recipes/csv_processing/csv_pipeline.py:121 | two rows are equal as maps exactly when they hold the same `(key, value)` items, which is what comparing `tuple(sorted(row.items()))` compares |
| CsvClean.WhitespaceVariantsCollapse | recipes/csv_processing/csv_pipeline.py:109-124 | two rows that differ only in surrounding whitespace have equal keys after stripping, so the later one is not a first occurrence |
| CsvClean.StripDedupIdempotent | recipes/csv_processing/csv_pipeline.py:109-128 | applying the strip and deduplicate steps to their own output changes nothing |
| CsvClean.FillRowFacts | recipes/csv_processing/csv_pipeline.py:134-137 | the filled column is present; a missing or blank cell gets the fill value; a row without one is unchanged; other keys are untouched; a non-blank fill leaves nothing to fill |
| CsvClean.FillRowIdempotent | recipes/csv_processing/csv_pipeline.py:134-137 | filling a column twice with a non-blank value is filling it once |
| CsvClean.FillColumn | recipes/csv_processing/csv_pipeline.py:133-137 | the loop fills exactly `FilledRows`, and `count` is the number of rows whose cell was missing or blank |
| CsvClean.FillNulls | recipes/csv_processing/csv_pipeline.py:131-139 | all fill columns in dict order, with one report line per column that filled at least one cell |
| CsvClean.DropRowFacts | recipes/csv_processing/csv_pipeline.py:142-145 | a kept row has exactly the keys not dropped, the same value for each, in the same order (a subsequence), and stays a valid dict |
| CsvClean.RenameRowKeys | recipes/csv_processing/csv_pipeline.py:148-151 | a renamed row is keyed by the distinct new names `rename.get(k, k)`, in order of first appearance |
| CsvClean.RenameLastWins | recipes/csv_processing/csv_pipeline.py:150 | when several keys rename to one name, that name holds the value of the last of them |
| CsvClean.CleanDataset | recipes/csv_processing/csv_pipeline.py:92-157 | the rows and report are those of strip, then dedup, then fill, then drop, then rename, each under its config default |
| CsvClean.CleanedRowCount | recipes/csv_processing/csv_pipeline.py:125-151 | fill, drop and rename keep the number of rows; only deduplication can reduce it, and with it off the count is unchanged |
| CsvClean.AfterDedupFacts | recipes/csv_processing/csv_pipeline.py:109-128 | with deduplication on, the output rows are pairwise different first occurrences of the stripped rows, in order |
| CsvAggregate.ReducerOf | recipes/csv_processing/csv_pipeline.py:173-179 | an unknown reducer name falls back to `sum` |
| CsvAggregate.RowValue | recipes/csv_processing/csv_pipeline.py:166 | a missing value column reads as 0 |
| CsvAggregate.GroupsGet | recipes/csv_processing/csv_pipeline.py:162-169 | each group holds exactly the numbers of its rows in row order; a key with no parsing row has no group |
| CsvAggregate.GroupsKeys | recipes/csv_processing/csv_pipeline.py:162-169 | the groups are keyed by the distinct keys of parsing rows, in order of first appearance |
| CsvAggregate.GroupValuesEmpty | recipes/csv_processing/csv_pipeline.py:165-169 | a key has numbers exactly when some row with that key parses |
| CsvAggregate.SkipUnparsed | recipes/csv_processing/csv_pipeline.py:165-168 | a row whose value does not parse changes no group and adds no key |
| CsvAggregate.MissingColumns | recipes/csv_processing/csv_pipeline.py:164-169 | a row without the value column adds 0 to its group; a row without the group column falls in group `""` |
| CsvAggregate.GroupKeysFacts | recipes/csv_processing/csv_pipeline.py:172 | the sorted group keys are strictly ascending and are exactly the keys of parsing rows |
| CsvAggregate.GroupsLookup | recipes/csv_processing/csv_pipeline.py:172-173 | each sorted key's entry in the groups dict is that key's non-empty group of numbers |
| CsvAggregate.AggregatedFacts | recipes/csv_processing/csv_pipeline.py:171-183 | the records come in strictly ascending key order, one per key of a parsing row, each with its group's size, reduction and value column name |
| CsvAggregate.AggregatedByRecords | recipes/csv_processing/csv_pipeline.py:172-182 | a list of the records built from the groups dict, one per sorted key, is the output |
| CsvAggregate.BuildGroups | recipes/csv_processing/csv_pipeline.py:162-169 | the first loop leaves the groups dict of the rows |
| CsvAggregate.ReduceGroups | recipes/csv_processing/csv_pipeline.py:171-182 | the second loop yields, for each key in order, the record built from that key's group |
| CsvAggregate.Aggregate | recipes/csv_processing/csv_pipeline.py:160-183 | one record per group key, keys strictly ascending, keys exactly those of parsing rows, `count` the group's size, value the chosen reduction of the group |
| StringOrder.SortAscending | recipes/csv_processing/csv_pipeline.py:172 | `sorted` of distinct strings is strictly ascending in Python's string order |
| StringOrder.LessTotal | recipes/csv_processing/csv_pipeline.py:172 | Python's string `<` orders any two different strings |
| StringOrder.LessTransitive | recipes/csv_processing/csv_pipeline.py:172 | Python's string `<` is transitive |
| TextCleaner.DefaultOptions | recipes/data_cleaning/text_cleaner.py:21-50 | with no config or an empty one, every option is on except `remove_urls` |
| TextCleaner.NormalizeUnicode | recipes/data_cleaning/text_cleaner.py:43-47 | the replacement chain leaves no curly quote, en dash, ellipsis or no-break space |
| TextCleaner.NormalizeUnicodeUnchanged | recipes/data_cleaning/text_cleaner.py:43-47 | text without those characters passes unchanged (the em-dash replacement is the identity) |
| TextCleaner.RemoveControl | recipes/data_cleaning/text_cleaner.py:51 | no character of the control class remains, and only characters of the input are kept |
| TextCleaner.RemoveControlUnchanged | recipes/data_cleaning/text_cleaner.py:51 | text without control characters passes unchanged |
| TextCleaner.CleanTextTail | recipes/data_cleaning/text_cleaner.py:41-53 | the result has no leading or trailing whitespace; with `normalize_unicode` on, no replaced character; with `remove_control_chars` on, no control character |
| TextCleaner.CleanTextTailIdempotent | recipes/data_cleaning/text_cleaner.py:41-53 | cleaning cleaned text again changes nothing |
| TextCleaner.KeepFirstParagraphs | recipes/data_cleaning/text_cleaner.py:79-86 | the `seen`-set loop keeps the first paragraph for each non-empty `strip().lower()` key |
| TextCleaner.DeduplicateParagraphs | recipes/data_cleaning/text_cleaner.py:76-88 | the result joins, with `"\n\n"`, the first paragraph for each non-empty key |
| TextCleaner.UniqueParagraphsFacts | recipes/data_cleaning/text_cleaner.py:78-88 | the kept paragraphs are a subsequence of the split, are exactly the first occurrences, share no key and are never blank |
| TextCleaner.DeduplicateDistinctUnchanged | recipes/data_cleaning/text_cleaner.py:76-88 | text whose paragraphs are non-blank with pairwise different keys comes back unchanged |
| TextCleaner.ChunkText | recipes/data_cleaning/text_cleaner.py:91-103 | text without words gives no chunks for any sizes; otherwise chunk `i` is the word window starting at `i*(chunk_size-overlap)`, and the chunk count is the least that reaches past the last word |
| TextCleaner.ChunkWords | recipes/data_cleaning/text_cleaner.py:98-99 | for a positive chunk size a chunk holds exactly the words of its window, at most `chunk_size` of them |
| TextCleaner.ChunkCovering | recipes/data_cleaning/text_cleaner.py:97-101 | with `0 <= overlap < chunk_size` every word, the last included, lies in the window of some chunk |
| TextCleaner.ChunksCoverWords | recipes/data_cleaning/text_cleaner.py:93-103 | with `0 <= overlap < chunk_size`, every word of the text is among the words of some returned chunk |
| TextCleaner.ChunksOfNoWords | recipes/data_cleaning/text_cleaner.py:93-97 | text without words gives no chunks, and text with words gives at least one |
| Strings.WordsOfJoin | recipes/data_cleaning/text_cleaner.py:99 | `" ".join(ws).split()` gives back the words `ws` |
| Strings.JoinSplit | recipes/data_cleaning/text_cleaner.py:78-88 | joining the pieces of `split(sep)` with `sep` gives back the text |
| ApiIngestion.NormalizeRecords | recipes/api_ingestion/api_to_dataset.py:86-100 | no records give `[]`; `fields` None or empty returns the records unchanged |
| ApiIngestion.NormalizeProjects | recipes/api_ingestion/api_to_dataset.py:97-98 | with non-empty `fields` the output has one record per input, keyed by exactly the distinct fields, each value the record's own or null |
| ApiIngestion.NormalizeFails | recipes/api_ingestion/api_to_dataset.py:98 | with non-empty `fields`, a record that is not a dict makes the call fail |
| ApiIngestion.PageUrl | recipes/api_ingestion/api_to_dataset.py:58-61 | the URL starts with the base URL, followed by `&` exactly when the base already contains `?` |
| ApiIngestion.PageUrlInjective | recipes/api_ingestion/api_to_dataset.py:61 | different page numbers give different URLs |
| ApiIngestion.PageItems | recipes/api_ingestion/api_to_dataset.py:73 | the items of a wrapped page come from `results` if present, else `items`, else `data`, else none |
| ApiIngestion.EmptyResultsStops | recipes/api_ingestion/api_to_dataset.py:73-75 | a present but empty `results` ends the loop whatever `items` holds |
| ApiIngestion.OutcomeStep | recipes/api_ingestion/api_to_dataset.py:62-81 | one turn of the loop on the remaining responses: a failure ends with that error, an empty page ends the result, a page of items is prepended to what the later pages give, and counts one request |
| ApiIngestion.FetchPaginated | recipes/api_ingestion/api_to_dataset.py:36-83 | the loop requests the URLs of pages 1, 2, ... in order; the number requested and the result are those the responses determine (`Consumed`, `Outcome`) |
| ApiIngestion.OutcomeByFirstStop | recipes/api_ingestion/api_to_dataset.py:60-78 | the result is the in-order concatenation of the items of the pages before the first stopping response, or that response's error; one page past those is requested |
| ApiIngestion.ConsumedBound | recipes/api_ingestion/api_to_dataset.py:60 | no more than `max_pages` pages are requested, and none when it is not positive |
| Json.Iterate | recipes/api_ingestion/api_to_dataset.py:70-76 | `extend` appends a list's elements, and fails on a value that is not iterable |

## Left out

- File and CSV I/O (`read_csv`, `write_csv`, `save_dataset`), argument parsing, `print` reporting including the null bar of `profile_dataset`, `time.sleep` and the HTTP request inside `fetch_json` are outside the model. `fetch_json` is the `fetch` parameter; its HTTP headers and timeout are not modelled.
- Floating point. Numbers are exact reals. `round(..., 1)` and `round(..., 2)` are not applied, and the median value and standard deviation value are not computed. Only the presence of `stdev` is modelled.
- `float(str)` is replaced by a simplified decimal parser (`Numbers.ParseNumber`). It accepts surrounding whitespace, an optional sign, and digits with an optional fraction. It rejects exponents, `inf`, `nan`, underscores and non-ASCII decimal digits (Arabic-Indic `"١٢"`, fullwidth `"１２"`), all of which Python accepts.
- Cells are always strings. `csv.DictReader` can also produce `None` or list cells for short or long lines. The strip step's `isinstance(row[k], str)` test is therefore always true here.
- `Strings.Lower` lowers ASCII letters only, and `Strings.IsSpace` is the fixed list of characters Python's `str.isspace` accepts.
- `clean_text`'s regex steps (whitespace collapsing, HTML, URL and e-mail removal) and all of `clean_markdown` and `extract_structured.py`. Their meaning is the regex engine's. `TextCleaner.CleanTextTail` applies lines 41-53 to the text those steps would produce.
- Option values in both configs are booleans; Python accepts any truthy value. The config dict of `clean_text` is `Option<Dict<bool>>`; that of `clean_dataset` is the record `CsvClean.CleanConfig`. In `CleanConfig`, `fill_nulls` values are strings, so `str(fill_value)` is the identity.
- CsvAggregate.Aggregate: the output record is the datatype `AggRow(key, valueName, value, count)`. A Python dict would lose an entry when `group_by` equals `"count"` or the value name; that collision is not modelled.
- TextCleaner.ChunkText: requires `overlap < chunk_size` or text without words. Text without words returns `[]` whatever the overlap. On text with a word and `overlap >= chunk_size`, the source loops forever. Python's slicing with negative ends is modelled (`TextCleaner.Slice`). The per-chunk word bounds are proved only for a positive `chunk_size`.
- CsvClean.CleanDataset: the list of report lines is an added second output. It stands for the lines the source prints. `clean_dataset` itself returns only the cleaned rows (`recipes/csv_processing/csv_pipeline.py:153-157`).
- `clean_dataset`'s `headers` parameter is unused by the source and is only passed through.
- Embedding, PDF extraction, web scraping and the end-to-end orchestration are not part of this model.
