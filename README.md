# Financial-news analysis scripts, modelled in Dafny

The repository is a set of standalone Python batch scripts. One loads
per-ticker stock prices. The others process a table of news headlines in
stages: cleaning, topic assignment, a publisher/topic breakdown, and a timing
analysis. Each stage reads the file the previous one wrote. Almost all of
the work is done by library calls. This project models the parts whose logic
is the scripts' own, and proves what that logic guarantees:

- `extract_domain` and the cleaning step of `scripts/data_cleaning.py`
  (module `DataCleaning`). The regular expression `@(.+?)(?:\.\w+)?$` is
  modelled in two ways:
  - as `re.search` runs it: a lazy group that grows one character at a time,
    followed by an optional greedy `.word` suffix;
  - as a closed rule: the text after the first `@`, without its last
    `.word` suffix.

  A lemma shows that the two agree.
- `load_data` of `scripts/load_and_process_data.py`, with the fatal-error
  report of its main block (module `MarketLoader`). The per-file loop keeps
  the Python's three ways of treating a file:
  - skip it with an error message;
  - load its rows;
  - let a `KeyError` escape, which ends the whole load.

  The loop is proved equal to a specification function. The outcomes are
  characterised by if-and-only-if lemmas.
- `display_topics` and the dominant-topic assignment of
  `scripts/topic_modeling.py` (module `TopicModeling`).
- The count pivot, `Total_Count`, `nlargest` and topic filter of
  `scripts/publisher_specialization.py` (module `PublisherSpecialization`).
  The pivot is a class whose `Total_Count` column is added in place.
- The daily filter, hourly histogram, peak hour and UTC-to-Eastern shift of
  `scripts/time_series_analysis.py` (module `TimeSeries`).

Shared modules:

- `News`: the news table. It is a class whose row sequence the scripts
  replace in place.
- `Strings`: ASCII case mapping, `strip`, and string order.
- `Ranking`: a stable `argsort`, and a first-position `argmax`.
- `Tally`: occurrence counts.
- `Wrappers`: `Option`.

Everything outside the program is an input to the model:

- Files and folders are maps from names to parsed contents, and a missing
  file is a missing key.
- Timestamps are already decoded into a day number and an hour.
- The fitted vectorizer and NMF model are given as weight matrices and a
  vocabulary.
- Whether the seasonal decomposition succeeds is a boolean parameter.

Behaviour of the code worth noting, which the model keeps:

- **Publisher domains.** In the `@` branch the domain is the text after the
  first `@`, less a final dot-suffix, but:
  - the suffix is removed only when it is a dot followed by word characters;
  - it is not removed when that would leave nothing, so "x@.com" gives
    ".com";
  - a name whose `@` is its last character does not match, and falls through
    to the space-replacement branch.
- **Hourly counts.** The `groupby` keeps only the hours that occur; hours
  without articles get no bucket.
- **A file without a `Date` column.** `df['Date']` (scripts/load_and_process_data.py:26)
  raises a `KeyError`. Only `FileNotFoundError` and `ValueError` are caught,
  so the whole load stops there.

## Model

| member | source | states |
|---|---|---|
| Strings.ToLower | scripts/data_cleaning.py:15 | `lower()`: each character mapped on its own, A-Z to a-z, others unchanged; the result keeps the length and has no upper-case letter |
| Strings.ToUpper | scripts/load_and_process_data.py:21 | `upper()`: each character mapped on its own, a-z to A-Z, others unchanged; the result keeps the length and has no lower-case letter |
| Strings.Strip | scripts/data_cleaning.py:15 | `strip()` as `lstrip()` then `rstrip()`, a slice between the first and after the last non-whitespace character; `StripSpec` characterises it |
| Strings.StripSpec | scripts/data_cleaning.py:15 | `strip` removes exactly the leading and trailing whitespace: the result is a slice of the input, everything cut away is whitespace, and the result neither starts nor ends with whitespace |
| Strings.StripIdempotent | scripts/data_cleaning.py:15 | stripping a stripped string changes nothing |
| DataCleaning.Normalise | scripts/data_cleaning.py:15 | `str(name).lower().strip()`: `ToLower` then `Strip`; `NormaliseSpec` gives its properties |
| DataCleaning.ExtractDomain | scripts/data_cleaning.py:11-22 | normalise, then the lazy-group search or the space replacement; `DomainRule` and `RegexRule` give the closed form |
| DataCleaning.DomainOfNormalised | scripts/data_cleaning.py:16-22 | the two branches on the normalised name: the search's group 1 when there is an `@` and a match, otherwise the space replacement; `DomainRule` states each branch |
| DataCleaning.LazyGroupEnd | scripts/data_cleaning.py:17 | the lazy `(.+?)` tries each end from the given position on and stops at the first one after which `(?:\.\w+)?$` matches; its result lies between the start and the end of the text; `LazyGroupEndRule` gives where it stops |
| DataCleaning.SearchFrom | scripts/data_cleaning.py:17 | `re.search` from a position on: the leftmost `@` with at least one character after it whose lazy group finds an end; `SearchSkips` and `MatchAt` characterise it |
| DataCleaning.StripTld | scripts/data_cleaning.py:17 | the closed form of group 1: the text less its last `.word` suffix, when a dot at index 1 or later starts it; `StripTldSpec` characterises it |
| DataCleaning.NormaliseSpec | scripts/data_cleaning.py:15 | the normalised name has no upper-case letter and no surrounding whitespace, and normalising it again changes nothing |
| DataCleaning.ExtractDomainNormalises | scripts/data_cleaning.py:15 | lower-casing and stripping come first in both branches: a name and its normalised form give the same domain |
| DataCleaning.ReplaceSpaces | scripts/data_cleaning.py:22 | the replacement keeps the length, turns every space into `_`, keeps every other character, and leaves no space |
| DataCleaning.StripTldSpec | scripts/data_cleaning.py:17 | the optional `(?:\.\w+)?` tail removes a suffix exactly when the text ends in a dot followed by word characters, and that dot is not the first character; what remains is a prefix of the text |
| DataCleaning.DotWordTailImpliesTld | scripts/data_cleaning.py:17 | a `.word` tail after the first character starts at the last dot and is the suffix that is removed |
| DataCleaning.LazyGroupEndRule | scripts/data_cleaning.py:17 | the lazy group, tried at each end from its first character on, stops exactly before the last `.word` suffix, or at the end of the text when there is none |
| DataCleaning.SearchSkips | scripts/data_cleaning.py:17 | `re.search` passes over every position that holds no `@` |
| DataCleaning.MatchAt | scripts/data_cleaning.py:17-20 | an `@` followed by at least one character starts a match whose group 1 is the rest without its `.word` suffix |
| DataCleaning.RegexRule | scripts/data_cleaning.py:17-20 | the lazy-group search matches exactly when a character follows the first `@`; group 1 is then the text after that `@` without its last `.word` suffix |
| DataCleaning.DomainRule | scripts/data_cleaning.py:16-22 | the three branches: no `@` gives the name with `_` for spaces and no space left; text after the first `@` gives that text without its suffix, its spaces kept; an `@` at the end falls through to the replacement |
| DataCleaning.AddressRule | scripts/data_cleaning.py:16-20 | for a name whose first `@` has text after it, the domain is that text without its suffix |
| DataCleaning.StripTldEmailExample | scripts/data_cleaning.py:19-20 | "benzinga.com" loses ".com" |
| DataCleaning.StripTldKeepsSpacesExample | scripts/data_cleaning.py:20 | the `@` branch keeps spaces: "my news.com" gives "my news" |
| DataCleaning.NormaliseExample | scripts/data_cleaning.py:15 | " AP News" normalises to "ap news" |
| DataCleaning.ExtractDomainNameExample | scripts/data_cleaning.py:15-22 | " AP News" gives "ap_news" |
| DataCleaning.ExtractDomainLastSuffixExample | scripts/data_cleaning.py:17 | only the last suffix goes: "x@b.co.uk" gives "b.co" |
| DataCleaning.ExtractDomainNonWordSuffixExample | scripts/data_cleaning.py:17 | a suffix with a non-word character stays: "x@b.co-uk" gives "b.co-uk" |
| DataCleaning.ExtractDomainBareSuffixExample | scripts/data_cleaning.py:17 | the lazy group needs one character, so "x@.com" gives ".com" |
| DataCleaning.ExtractDomainTrailingAtExample | scripts/data_cleaning.py:16-22 | "x@" does not match and is returned through the replacement branch |
| DataCleaning.DropIncompleteRows | scripts/data_cleaning.py:41 | the kept rows are exactly the rows with both a headline and a publisher, and there are no more of them than before |
| DataCleaning.DropIncompleteRowsAppend | scripts/data_cleaning.py:41 | dropping works row by row, so the kept rows stay in their original order |
| DataCleaning.CleanRows | scripts/data_cleaning.py:41-44 | `dropna(subset=['headline', 'publisher'])` then `publisher_domain` from each publisher; `CleanRowsSpec` and `CleanRowsAppend` characterise it |
| DataCleaning.CleanRowsSpec | scripts/data_cleaning.py:41-44 | cleaning adds no rows; each output row is a complete input row with only `publisher_domain` set, to the domain of its publisher; every complete row appears |
| DataCleaning.CleanRowsAppend | scripts/data_cleaning.py:41-44 | cleaning a table is cleaning its parts and concatenating the results |
| DataCleaning.DropIncomplete | scripts/data_cleaning.py:41 | the in-place `dropna` leaves the table holding the complete rows, in order |
| DataCleaning.AddPublisherDomain | scripts/data_cleaning.py:44 | every row gets `publisher_domain` from its publisher; nothing else changes |
| DataCleaning.RunDataCleaning | scripts/data_cleaning.py:41-44 | the table ends as the cleaned rows of its old contents, each with a headline and a domain |
| MarketLoader.TickerOf | scripts/load_and_process_data.py:21 | `file.split('.')[0].upper()`; `TickerOfSpec` characterises it |
| MarketLoader.TickerOfSpec | scripts/load_and_process_data.py:21 | the ticker is the upper-cased text before the first dot of the file name |
| MarketLoader.TickerOfExample | scripts/load_and_process_data.py:21 | "aapl.csv" gives "AAPL" |
| MarketLoader.KeptBars | scripts/load_and_process_data.py:31-33 | a row survives coercion and `dropna` exactly when all five price cells are numbers; every surviving row carries the file's ticker |
| MarketLoader.KeptBarsAppend | scripts/load_and_process_data.py:31-33 | coercion and `dropna` work row by row: a file's kept rows are those of its parts, in order, duplicates included |
| MarketLoader.KeptBarsRow | scripts/load_and_process_data.py:31-33 | a single row is kept, as one bar, exactly when all five price cells are numbers |
| MarketLoader.FirstMissing | scripts/load_and_process_data.py:29-30 | a column is reported exactly when some required column is absent, and the reported column is absent |
| MarketLoader.FirstMissingIsFirst | scripts/load_and_process_data.py:29-30 | the reported column is the first absent one in Open/High/Low/Close/Volume order |
| MarketLoader.CheckRequiredColumns | scripts/load_and_process_data.py:29-31 | the column loop stops at that first absent column |
| MarketLoader.SortBars | scripts/load_and_process_data.py:45 | `sort_index` keeps every row, duplicates included, and orders them by (ticker as a string, date) |
| MarketLoader.LoadFile | scripts/load_and_process_data.py:18-38 | the loop body for one file: not found and unreadable files are skipped; a missing `Date` column lets the `KeyError` escape; an unparsable date or the first missing required column skips the file; otherwise its kept rows are loaded |
| MarketLoader.Gather | scripts/load_and_process_data.py:14-38 | the loop over the files: it appends each loaded file's rows to `all_data`, logs each skip, and stops at the first escaping `KeyError`; `GatherAbortSpec`, `GatherMembers`, `GatherSkipLog` and `GatherSkipsLogged` characterise it |
| MarketLoader.Load | scripts/load_and_process_data.py:12-47 | the loop, then the `RuntimeError` when nothing loaded, then `concat` and the (ticker, date) sort; the `Load*` lemmas characterise it |
| MarketLoader.AbortPropagates | scripts/load_and_process_data.py:26-38 | once a `KeyError` escapes, the remaining files change nothing |
| MarketLoader.LoadData | scripts/load_and_process_data.py:12-47 | the loop returns what the specification function `Load` gives, and a combined table is sorted |
| MarketLoader.GatherAbortSpec | scripts/load_and_process_data.py:17-38 | the loop aborts exactly when some file lacks a `Date` column, and it names the first such file |
| MarketLoader.GatherEmptyIff | scripts/load_and_process_data.py:14-38 | no frame is gathered exactly when every file is skipped |
| MarketLoader.GatherCount | scripts/load_and_process_data.py:33 | the gathered frames hold as many rows as the loaded files keep |
| MarketLoader.GatherMembers | scripts/load_and_process_data.py:33 | the gathered rows are exactly the kept rows of the loaded files |
| MarketLoader.GatherSkipLog | scripts/load_and_process_data.py:35-38 | every logged skip names a file of the list with the reason it was skipped |
| MarketLoader.GatherSkipsLogged | scripts/load_and_process_data.py:35-38 | every file the loop skips is logged with its reason |
| MarketLoader.LoadNoValidDataIff | scripts/load_and_process_data.py:40-41 | `RuntimeError` is raised exactly when every file was skipped |
| MarketLoader.LoadKeyErrorIff | scripts/load_and_process_data.py:26-38 | the `KeyError` escapes exactly when a file lacks a `Date` column, and it names a file without one that has no such file before it |
| MarketLoader.LoadCombinedCount | scripts/load_and_process_data.py:33-45 | the combined row count is the sum of kept rows over the loaded files, and the rows are sorted by (ticker, date) |
| MarketLoader.LoadCombinedMembers | scripts/load_and_process_data.py:21-45 | the combined table holds exactly the kept rows of the loaded files, so every ticker comes from a loaded file |
| MarketLoader.LoadSkipLog | scripts/load_and_process_data.py:35-38 | each reported skip is a file of the list with its reason (not found, unreadable, unparsable date, or a missing column), and every skipped file is reported with its reason |
| MarketLoader.RunPipeline | scripts/load_and_process_data.py:103-104 | the fatal error is reported exactly when no file loaded, with the `RuntimeError`'s message; otherwise the table is sorted and has the kept row count |
| Ranking.ArgSort | scripts/topic_modeling.py:21 | the model's stable `argsort` lists every position once, in non-decreasing key order; it puts equal keys in position order, which numpy's default sort does not promise |
| TopicModeling.TopWordIndices | scripts/topic_modeling.py:21 | `argsort()[:-k-1:-1]`: the last k positions of the ascending argsort, read backwards; `TopWordIndicesSpec` characterises it |
| TopicModeling.TopWordIndicesSpec | scripts/topic_modeling.py:21 | the slice `[:-k-1:-1]` gives min(k, vocabulary size) distinct in-range indices in non-increasing weight, and no unselected word weighs more than a selected one |
| TopicModeling.TopWords | scripts/topic_modeling.py:21-22 | keyword i is the vocabulary word at the i-th selected index, heaviest first; each topic yields min(k, vocabulary size) keywords |
| TopicModeling.TopicKeywords | scripts/topic_modeling.py:18-25 | the returned map has exactly the keys 0..n-1, and the entry for topic t is that topic's top words |
| TopicModeling.DisplayTopics | scripts/topic_modeling.py:16-25 | the loop builds that map, topic by topic |
| Ranking.FirstMax | scripts/topic_modeling.py:86 | `argmax` gives a position of a largest entry, and every earlier entry is smaller |
| TopicModeling.DominantTopics | scripts/topic_modeling.py:86 | every headline gets a topic in [0, N_TOPICS) of largest weight, and the lowest such topic wins ties |
| TopicModeling.WithTopics | scripts/topic_modeling.py:86 | the row count is unchanged, and each row gains exactly its topic id |
| TopicModeling.AssignDominantTopics | scripts/topic_modeling.py:79-86 | every row of the full table gets its dominant topic, which is below N_TOPICS |
| TopicModeling.RunTopicModeling | scripts/topic_modeling.py:32-86 | a missing input returns with an error and changes nothing; a table smaller than the sample raises `ValueError`; otherwise the keywords are reported and topics assigned |
| PublisherSpecialization.ArticlesOf | scripts/publisher_specialization.py:26 | the (domain, topic) pairs `groupby` sees, one per row with both cells, in row order, never more than the rows; `ArticlesOfMembers`, `ArticlesOfAppend` and `ArticlesOfRow` characterise it |
| PublisherSpecialization.ArticlesOfMembers | scripts/publisher_specialization.py:26 | the grouping sees exactly the rows with both a domain and a topic |
| PublisherSpecialization.ArticlesOfAppend | scripts/publisher_specialization.py:26 | the grouping sees the rows one by one and in order, so equal rows count separately |
| PublisherSpecialization.ArticlesOfRow | scripts/publisher_specialization.py:26 | a row gives exactly one article when it has a domain and a topic, and none otherwise |
| PublisherSpecialization.CountIsMultiplicity | scripts/publisher_specialization.py:26 | each cell is the number of articles with that domain and topic; a pair that never occurs counts 0 |
| PublisherSpecialization.Domains | scripts/publisher_specialization.py:26 | the rows are the domains that occur, strictly ascending |
| PublisherSpecialization.TopicIds | scripts/publisher_specialization.py:26 | the columns are the topic ids that occur, strictly ascending |
| PublisherSpecialization.CountCells | scripts/publisher_specialization.py:26 | the unstacked counts: one row per domain, one column per topic id, each cell `Count` of that pair, 0 when absent; `CountIsMultiplicity` gives its meaning |
| PublisherSpecialization.RowSums | scripts/publisher_specialization.py:29 | `sum(axis=1)` over the topic columns, one total per row; `TotalCountIsDomainCount` gives its meaning |
| PublisherSpecialization.PivotTable.constructor | scripts/publisher_specialization.py:26 | the pivot has those rows, columns and counts, and no `Total_Count` yet |
| PublisherSpecialization.PivotTable.AddTotalCount | scripts/publisher_specialization.py:29 | adding the column leaves the rest of the table as it was and fills in each row's sum |
| PublisherSpecialization.TopicSumIsDomainCount | scripts/publisher_specialization.py:29 | summing a domain's counts over distinct topic columns that cover every topic gives its article count |
| PublisherSpecialization.TotalCountIsDomainCount | scripts/publisher_specialization.py:29 | `Total_Count` is the domain's article count, topics 5 and above included |
| PublisherSpecialization.TopPublishers | scripts/publisher_specialization.py:32 | `nlargest` selects min(5, number of domains) row positions, all in range |
| PublisherSpecialization.TopPublishersSpec | scripts/publisher_specialization.py:32 | the selected rows are distinct and in non-increasing total; no unselected row has a larger total; equal totals go to the earlier row |
| PublisherSpecialization.TopLabelsSpec | scripts/publisher_specialization.py:32-36 | the labels of the selected rows are at most five, distinct, in non-increasing total, and no label left out has a larger total than a selected one |
| PublisherSpecialization.IncludedTopics | scripts/publisher_specialization.py:35 | the included topics are exactly the ids below 5 that are columns, ascending |
| PublisherSpecialization.PlotOf | scripts/publisher_specialization.py:36 | `plot_df`: the selected rows in selection order, restricted to the included topic columns; `Specialisation` and `PlotRowsSpec` state what it holds |
| PublisherSpecialization.Specialisation | scripts/publisher_specialization.py:26-36 | the plotted columns are the topics 0-4 that occur, without `Total_Count`, and every plotted cell is that domain's count on that topic |
| PublisherSpecialization.PlotRowsSpec | scripts/publisher_specialization.py:32-36 | the plotted rows are at most five distinct domains in non-increasing article count, and no domain left out has more articles than a plotted one |
| PublisherSpecialization.RunPublisherSpecialization | scripts/publisher_specialization.py:16-36 | a missing input returns with an error; otherwise the frame to plot is the one above |
| TimeSeries.RangeBuckets | scripts/time_series_analysis.py:27 | one bucket per key of a run of consecutive keys, empty ones included, each with the number of values equal to its key; `RangeBucketsSum` characterises it |
| TimeSeries.DailyCounts | scripts/time_series_analysis.py:27 | `resample('D').size()`: the buckets for every day from the first to the last, empty days included |
| TimeSeries.ActiveDailyCounts | scripts/time_series_analysis.py:28 | the daily buckets with a positive count; `ActiveDailyCountsSpec` characterises it |
| TimeSeries.Positive | scripts/time_series_analysis.py:28 | filtering by count > 0 keeps exactly the non-empty buckets, in order, with the same total |
| TimeSeries.RangeBucketsSum | scripts/time_series_analysis.py:27 | the buckets of a run of keys, empty ones included, count exactly the values in that run |
| TimeSeries.PositiveRangeMembers | scripts/time_series_analysis.py:27-28 | dropping the empty buckets of a key range that covers every value leaves, in key order, one bucket per value that occurs, with its count |
| TimeSeries.ActiveDailyCountsSpec | scripts/time_series_analysis.py:27-28 | the active series has one bucket per day with articles, in day order, with that day's count; the counts add up to the articles |
| TimeSeries.HourlyCounts | scripts/time_series_analysis.py:64 | `groupby('publication_hour_utc').size()`: the non-empty hour buckets, ascending; `HourlyCountsSpec` characterises it |
| Tally.Occurrences | scripts/time_series_analysis.py:64 | the size of one group: never more than the values, and 0 exactly when the value does not occur |
| TimeSeries.HourlyCountsSpec | scripts/time_series_analysis.py:64 | each bucket is an hour in 0..23 that occurs, with its article count; every hour that occurs has one; the counts add up to the articles |
| TimeSeries.Peak | scripts/time_series_analysis.py:70-71 | `idxmax()` and `max()`: the bucket at the first largest count, none for an empty series; `PeakHourSpec` and `PeakBeats` characterise it |
| TimeSeries.PeakHourSpec | scripts/time_series_analysis.py:70-71 | there is a peak exactly when there are articles; the peak count is at least every hour's count, and the smallest such hour wins |
| TimeSeries.PeakBeats | scripts/time_series_analysis.py:70-71 | in a key-ascending series the peak bucket counts at least as much as any bucket, and strictly more than any bucket with a smaller key |
| TimeSeries.EasternHour | scripts/time_series_analysis.py:74-75 | the shifted hour is in 0..23 and five hours later is the UTC hour again; it equals `(h - 5) % 24`, so the guard at line 75 never fires |
| TimeSeries.EasternHourUnique | scripts/time_series_analysis.py:74 | no other hour of the day shifts back to the same UTC hour |
| TimeSeries.EasternHourExample | scripts/time_series_analysis.py:74-75 | 3 UTC is 22 Eastern |
| TimeSeries.WithHours | scripts/time_series_analysis.py:61 | every row gets its timestamp's hour as `publication_hour_utc`; the row count is unchanged |
| TimeSeries.AddPublicationHour | scripts/time_series_analysis.py:61 | the in-place column assignment sets that hour on every row |
| TimeSeries.TimeSeriesOf | scripts/time_series_analysis.py:27-75 | the analysis as a function of the rows: the active daily series, the hourly series, its peak and the peak's Eastern hour; the lemmas above characterise each part |
| TimeSeries.RunTimeSeriesAnalysis | scripts/time_series_analysis.py:15-75 | a missing input returns before any analysis; otherwise the hour column is added and the outcome is the specification function's, whether or not the decomposition succeeded |

## Left out

- File I/O is not modelled: reading the CSV and pickle files, writing the outputs, `os.makedirs`, and all printing. Folders are maps from file name to parsed contents, and a missing name is a missing file.
- `read_csv` errors are not told apart: an empty or malformed file is one `Malformed` case. Both `EmptyDataError` and `ParserError` are `ValueError`s, so the file is skipped.
- Dates are not parsed: a date is a day number or unparsable text. An empty date cell, which pandas turns into `NaT`, is not represented.
- MarketLoader.KeptBars: a loaded row keeps only the ticker, the date and the five required columns. Other CSV columns are not carried.
- MarketLoader.SortBars: the order among rows with an equal (ticker, date) is not stated. The pandas sort does not promise one.
- `calculate_technical_indicators` and `calculate_financial_metrics` (scripts/load_and_process_data.py:49-87) are not modelled, nor the rest of the main block. They are floating-point library calls, so `RunPipeline` returns the loaded table.
- Text is ASCII only: `lower`, `upper`, `strip` and `\w` are not Unicode-aware. The regex corner cases around line breaks (`.` does not match `\n`; `$` also matches before a final `\n`) are not modelled.
- Topic fitting is not modelled: the sample, the vectorizer, the stop-word download, the NMF fit and the transform (scripts/topic_modeling.py:38-83). The topic weights, the vocabulary and the document-topic weights are parameters, and weights are reals. Only the size check of `df.sample` is kept: it raises when the table has fewer rows than the sample.
- Ranking.ArgSort: the order among equal keys is the model's choice (position order). numpy's default `argsort` is not stable, so in scripts/topic_modeling.py:21 it may order equal weights differently.
- TopicModeling.TopWordIndicesSpec: the order among words of equal weight is not stated. numpy's default sort does not fix it, and the model's stable sort picks one.
- Seasonal decomposition (scripts/time_series_analysis.py:31-55) is a boolean parameter. Its success or failure only decides whether the decomposition is reported.
- All plotting is left out, and scripts/visualize_analysis.py is not part of this model. This includes `min(topics_to_include)` at scripts/publisher_specialization.py:47, which raises when no topic 0-4 occurs.
- The raw-data loading of `run_data_cleaning` (scripts/data_cleaning.py:29-38) is not modelled. Line 30 refers to an undefined `data`, so the script as written stops with `NameError`. The model covers the filter-and-map of lines 41-44 that the script evidently intends.
- PublisherSpecialization.PivotTable.AddTotalCount: requires that `Total_Count` is not yet present. A second call in Python would add the old totals into the new sum.
