# Udemy course intelligence: scoring and recommendation core

A Dafny model of the scoring and recommendation engine of a course dashboard,
together with the row-level rules of the job that loads its table. The model
covers these parts:

- **Scoring** (`recommendation_system.py`).
  - The Bayesian average shrinks a course's popularity or quality score toward the dataset mean `C`. It is weighted by the review count `v` against the constant `m = 10`.
  - The confidence tier is a step function of the review count.
  - Engagement per subscriber is a quotient guarded against zero subscribers.
  - A course is suspicious when its review rate is at least 0.99 and it has fewer than 50 subscribers.
  - `enhance_dataframe` adds all of these columns to a copy of the table.
- **Recommendation** (`recommendation_system.py`).
  - `get_recommendations` looks up the query course's row of the similarity matrix. It ranks that row by similarity, descending and stable, and drops the first-ranked entry. It then walks the rest and admits courses with enough reviews that are not suspicious, stopping at `n`.
  - The subject table keeps the eligible courses of one subject and shows the ten with the largest adjusted popularity.
  - The view-name sanitiser keeps only letters, digits and `_`.
- **Import** (`run_data_import.py`).
  - Cleaning fills missing prices with 0 and drops rows without a title or subject.
  - The ratio features replace ±inf and NaN with 0.
  - The popularity score uses weights 0.4/0.3/0.3 and the quality score 0.5/0.5, each term divided by its column's maximum.
  - Duration and price are binned into length and price categories.
  - Column names are cleaned with the `[^A-Za-z0-9_]+` regex.
  - Rows are de-duplicated by `course_id`, keeping the first.

Scores are exact `real`s, counts are `nat`s, and a missing cell is `Option.None`.
The similarity matrix is an input (`seq<seq<real>>`). It must have one row and one column per table row, as the original's matrix does because it is built from the same table.

Files and modules:

- `sequences.dfy` (`Sequences`): `Option`, subsequences, prefixes and pairwise orderings.
- `sorting.dfy` (`Sorting`): a stable descending insertion sort. It models Python's `sorted(..., reverse=True)` and pandas' `nlargest(keep='first')`.
- `scoring.dfy` (`Scoring`): the per-row metrics and `enhance_dataframe`.
- `recommend.dfy` (`Recommend`): `get_recommendations`, the subject table and the finding below.
- `text.dfy` (`Text`): the view-name and column-name filters.
- `data_import.dfy` (`DataImport`): the import job's cleaning, features, de-duplication and their composition.

In these places the code does not do what a reader might expect, and the model follows the code:

- An unknown course id gives an empty result, not a distinct `NotFound` error. The code catches the failed lookup and returns an empty frame.
- Recommendations come in non-increasing similarity order, not strictly decreasing order. Equal similarities keep table order.
- The suspicion flag reads the stored `review_rate` column, not the recomputed engagement per subscriber.
- An empty table is not an `InsufficientData` error. `EnhanceDataframe` returns it unchanged, so the undefined mean is never used.

## Model

| member | source | states |
|---|---|---|
| `Scoring.BayesianAsShift` | recommendation_system.py:51 | the adjusted score equals the raw score moved toward the mean by the fraction m/(v+m) of their distance |
| `Scoring.BayesianBetween` | recommendation_system.py:45-52 | whenever v+m > 0, the adjusted score lies between the raw score R and the mean C, inclusive |
| `Scoring.BayesianExtremes` | recommendation_system.py:51 | with v = 0 the adjusted score is exactly C; with m = 0 it is exactly R |
| `Scoring.BayesianMonotone` | recommendation_system.py:51 | more reviews never move the adjusted score further from R: it moves monotonically from C toward R, from either side |
| `Scoring.BayesianAverage` | recommendation_system.py:45-52 | computes (v/(v+m))R + (m/(v+m))C; its properties are stated by `Scoring.BayesianAsShift`, `Scoring.BayesianBetween`, `Scoring.BayesianExtremes` and `Scoring.BayesianMonotone` |
| `Scoring.Mean` | recommendation_system.py:47 | the mean C of a non-empty column; its bounds are stated by `Scoring.MeanBounds` |
| `Scoring.ConfidenceLevel` | recommendation_system.py:54-63 | High iff reviews >= 100, Medium iff 20..99, Low iff 5..19, Very Low iff below 5 (exact at 4/5, 19/20, 99/100) |
| `Scoring.EngagementPerSubscriber` | recommendation_system.py:74-77 | with subscribers > 0 the value times subscribers is the review count; with no subscribers it is 0; never negative |
| `Scoring.IsSuspicious` | recommendation_system.py:78 | the suspicion rule; the iff with review_rate >= 0.99 and subscribers < 50 is stated by `Scoring.EnrichRow` |
| `Scoring.QualityValues` | recommendation_system.py:71 | a value occurs among the quality values the mean is taken over iff some row has it as its quality score; `Scoring.QualityValuesConcat` and `Scoring.QualityValuesOne` fix the multiplicities and the order |
| `Scoring.QualityValuesConcat` | recommendation_system.py:71 | the quality values of a concatenation are those of each part, in turn |
| `Scoring.QualityValuesOne` | recommendation_system.py:71 | one row gives its quality score if present and nothing if missing; with `Scoring.QualityValuesConcat` this fixes the values, their repeats and their row order, as pandas' NaN-skipping mean sees them |
| `Scoring.EnrichRow` | recommendation_system.py:65-80 | the original row is kept; adjusted popularity is the Bayesian average of the row's popularity with m = 10 and the popularity mean, and adjusted quality that of its quality when present; adjusted popularity lies between the raw score and the popularity mean and equals the mean at 0 reviews; adjusted quality is present iff quality is, and lies between raw quality and the quality mean; the tier of the review count; engagement is reviews/subscribers or 0; suspicious iff review_rate >= 0.99 and subscribers < 50 |
| `Scoring.EnhanceDataframe` | recommendation_system.py:65-80 | the result has one enriched row per input row, in order, each keeping its original columns and carrying the derived columns for the dataset-wide means |
| `Scoring.MeanBounds` | recommendation_system.py:47 | the column mean C lies within any bounds that hold for every value of the column |
| `Scoring.EnhancedPopularityInRange` | recommendation_system.py:45-52 | every adjusted popularity lies within the [min, max] range of the raw popularity column |
| `Recommend.FindCourse` | recommendation_system.py:95 | returns the first row holding the id, and None exactly when no row holds it |
| `Recommend.Ranked` | recommendation_system.py:96-97 | the stable descending sort of the enumerated similarity row; its properties are stated by `Recommend.RankedSpec` and the `Sorting` lemmas |
| `Recommend.RankedTail` | recommendation_system.py:98 | the ranked row without its first entry; its properties are stated by `Recommend.RankedTailSpec` |
| `Sorting.SortPermutes` | recommendation_system.py:97 | the sort returns a permutation of its input |
| `Sorting.SortIsDescending` | recommendation_system.py:97 | the sort returns its input in non-increasing key order |
| `Sorting.SortIsStable` | recommendation_system.py:97 | for every key value, the elements carrying it come out in their input order |
| `Recommend.RankedSpec` | recommendation_system.py:96-97 | the ranked row has every entry once and its indices are in range; higher similarity comes first, and ties come in table order |
| `Recommend.RankedTailSpec` | recommendation_system.py:98 | dropping the first-ranked entry leaves one entry fewer, still in ranked order |
| `Recommend.AdmissibleCandidates` | recommendation_system.py:103 | keeps exactly the candidates with enough reviews that are not suspicious, as a subsequence |
| `Recommend.TopAdmitted` | recommendation_system.py:100-116 | the candidates the walk admits; its properties are stated by `Recommend.TopAdmittedSpec`, and the loop is proved equal to it by `Recommend.AdmitTopN` |
| `Recommend.TopAdmittedSpec` | recommendation_system.py:100-116 | the admitted entries are admissible and a subsequence of the candidates; at most n of them for n >= 1, at most 1 for n <= 0; with n >= 1 an admissible candidate is left out only when n were admitted |
| `Recommend.WalkStopsEarly` | recommendation_system.py:115-116 | breaking as soon as n are admitted yields the first n admissible candidates; with n <= 0 it yields the verdict on the first candidate only |
| `Recommend.AdmitTopN` | recommendation_system.py:100-117 | the loop returns exactly the records of the admitted candidates, in ranked order |
| `Recommend.ToRecommendation` | recommendation_system.py:104-114 | the record of an admitted course carries that course's id, review count and adjusted popularity and the candidate's similarity |
| `Recommend.Project` | recommendation_system.py:104-114 | one record per admitted candidate, in order; the review bound and the similarity order of the records are stated by `Recommend.GetRecommendations` |
| `Recommend.GetRecommendations` | recommendation_system.py:92-121 | an unknown id gives []; otherwise it returns the admitted entries of the ranked row without its first entry; at most n entries (1 when n <= 0); every entry has enough reviews; similarities do not increase |
| `Recommend.RecommendationsSpec` | recommendation_system.py:96-116 | the result is a subsequence of the ranked row minus its first entry; each entry has enough reviews and is not suspicious; entries come in ranked order, with ties in table order |
| `Recommend.QueryRecommendedToItself` | recommendation_system.py:96-103 | two rows with identical content, query the second: the first is dropped and the query is recommended to itself |
| `Recommend.GetRecommendationsExcludingQuery` | recommendation_system.py:92-121 | the same query with the query course removed by id, not by rank: an unknown id gives []; otherwise the admitted entries of the ranked row without the query's rows; no entry has the query's id; at most n entries (1 when n <= 0); enough reviews; similarities do not increase |
| `Recommend.ExcludingQuerySpec` | recommendation_system.py:96-116 | with the query removed by id, every admitted entry is admissible and not the query course, at most n of them (1 when n <= 0), in ranked order with ties in table order |
| `Recommend.SubjectRows` | recommendation_system.py:387-389 | keeps exactly the rows of the subject with at least the minimum reviews that are not suspicious, as a subsequence of the table; `Recommend.SubjectRowsConcat` and `Recommend.SubjectRowsOne` fix the repeats and the order |
| `Recommend.SubjectRowsConcat` | recommendation_system.py:387-389 | filtering a concatenation filters each part in turn |
| `Recommend.SubjectRowsOne` | recommendation_system.py:387-389 | one row is kept exactly when it is of the subject, has enough reviews and is not suspicious; with `Recommend.SubjectRowsConcat` the kept rows come in table order, once per eligible row |
| `Recommend.TopInSubject` | recommendation_system.py:391 | the ten most popular eligible rows of the subject, or all of them when fewer qualify; its properties are stated by `Recommend.TopInSubjectSpec`, `Recommend.TopInSubjectIsLargest` and `Recommend.TopInSubjectKeepsFirst` |
| `Recommend.TopInSubjectSpec` | recommendation_system.py:387-391 | exactly min(10, number of eligible rows) rows, each eligible, by non-increasing adjusted popularity; with 10 or fewer eligible rows, all of them |
| `Recommend.TopInSubjectIsLargest` | recommendation_system.py:391 | no eligible row left out is more popular than any row shown |
| `Recommend.TopInSubjectKeepsFirst` | recommendation_system.py:391 | among rows of equal popularity, the ones shown are the earliest in table order, in that order |
| `Text.KeepWordChars` | recommendation_system.py:39 | the result has only letters, digits and `_`; it is a subsequence of the input and keeps every such character of the input |
| `Text.KeepWordCharsFixes` | recommendation_system.py:39 | a name made only of letters, digits and `_` is unchanged |
| `Text.KeepWordCharsIdempotent` | recommendation_system.py:39 | sanitising twice is sanitising once |
| `Text.CleanColumnNames` | run_data_import.py:75 | one cleaned name per column; each has only `[A-Za-z0-9_]`, is a subsequence of the original name, and keeps every letter, digit and `_` of it as often as it occurs |
| `Text.CleanColumnNamesIdempotent` | run_data_import.py:75 | cleaning the cleaned names changes nothing |
| `DataImport.CleanRows` | run_data_import.py:36-37 | every kept row comes from a raw row with a title and a subject, with its price filled; every such raw row is kept; `DataImport.CleanRowsConcat` and `DataImport.CleanRowsOne` fix the order and the repeats |
| `DataImport.CleanRowsConcat` | run_data_import.py:36-37 | cleaning a concatenation cleans each part in turn |
| `DataImport.CleanRowsOne` | run_data_import.py:36-37 | one row is kept, with its price filled, exactly when it has a title and a subject; with `DataImport.CleanRowsConcat` the kept rows come in CSV order, once per complete raw row |
| `DataImport.Fill` | run_data_import.py:36 | a missing price becomes 0, a present one is kept; id, title and subject are the raw row's |
| `DataImport.GuardedRatio` | run_data_import.py:47-49 | with a non-zero denominator, the result times it gives the numerator; with a zero one the result is 0; non-negative for non-negative inputs |
| `DataImport.ColumnMax` | run_data_import.py:52-58 | the column maximum bounds every value and is one of them |
| `DataImport.PopularityScore` | run_data_import.py:51-55 | missing (NaN) exactly when one of the three column maxima is 0 |
| `DataImport.QualityScore` | run_data_import.py:56-59 | missing (NaN) exactly when one of the two column maxima is 0 |
| `DataImport.ScoresInUnitInterval` | run_data_import.py:51-59 | with each input between 0 and its column's maximum, both scores lie in [0, 1] |
| `DataImport.FrameScoresInUnitInterval` | run_data_import.py:51-59 | every popularity and quality score computed over a frame lies in [0, 1] |
| `DataImport.CategorizeLength` | run_data_import.py:61-64 | Short iff duration < 2, Medium iff 2 <= duration < 10, Long iff duration >= 10 |
| `DataImport.CategorizePrice` | run_data_import.py:67-71 | Free iff price = 0; Budget iff nonzero and < 50 (negative prices included); Mid-Range iff 50..<100; Premium iff >= 100 |
| `DataImport.Featurize` | run_data_import.py:47-72 | the row keeps its columns and gains the guarded ratios and both categories; the bounds of its scores are stated by `DataImport.ScoresInUnitInterval` |
| `DataImport.EngineerFeatures` | run_data_import.py:47-72 | one featured row per row, in order, with the score maxima taken over the whole frame; its score bounds are stated by `DataImport.FrameScoresInUnitInterval` |
| `DataImport.DropDuplicateIds` | run_data_import.py:80 | the kept rows have distinct ids, each is the first row of its id, the set of ids is unchanged, and they come in the order in which their ids first occur, even when a duplicate row equals its first occurrence |
| `DataImport.FirstIndex` | run_data_import.py:80 | the position of the first row with an id, or the table length if none has it |
| `DataImport.ImportCourses` | run_data_import.py:36-80 | the uploaded table has distinct ids; its rows come in the order in which their ids first occur among the featured rows, so CSV order is kept; its ids are exactly the ids of complete CSV rows; each row is the first of its id; all scores lie in [0, 1] |

## Findings

| source | as written | input that shows it | evidently intended | confidence | as-written member | corrected member |
|---|---|---|---|---|---|---|
| recommendation_system.py:96-98 | `sim_scores[1:]` drops the first-ranked entry, taking it to be the query course | Two courses with identical title and subject, with the query being the later one. Both similarities are 1, the stable sort ranks the earlier row first, and the query course is returned as its own recommendation. A course whose content has no vocabulary terms has an all-zero row, which does the same unless it is row 0. | the query course itself is excluded, whatever its rank | medium (not executed) | `Recommend.QueryRecommendedToItself` | `Recommend.GetRecommendationsExcludingQuery` |

## Left out

- Default arguments are not modelled. These are `n=5, min_reviews=5` of `get_recommendations` (recommendation_system.py:92) and `min_reviews=10` of `calculate_bayesian_average` (line 45). Every call site passes these values explicitly (lines 68, 71 and 350), so the model takes them as parameters or as the constant `PriorWeight`.
- The Streamlit pages, widgets, caching and all Plotly charts are user interface.
- The analytics and price-optimizer statistics are floating-point aggregates for display.
- The database connection, `load_data`, the SQL text of `load_sql_view` and the upload, truncate and verify steps are I/O.
- CSV reading, the secrets file and the `datetime.now()` course age depend on the environment.
- TF-IDF vectorisation and cosine similarity are library calls. The similarity matrix is an input; its symmetry and unit diagonal are not relied on.
- Floating point is not modelled: the model uses exact reals. NaN appears only as a missing score (`None`) where a column maximum is 0, and as a missing quality cell. The ±inf/NaN replacement is modelled as a zero-denominator guard.
- The import job's columns that feed nothing modelled are omitted: `url`, `is_paid`, `level`, `published_timestamp` and `published_year`.
- `DataImport.CleanRows`: the import job fills and drops in place; the model returns a new sequence.
- `DataImport.EngineerFeatures`: the column assignments are modelled as a new sequence.
- `DataImport.ImportCourses`: the script's in-place mutation of one data frame is modelled as a sequence handed from step to step.
- `Scoring.EnhanceDataframe`: the popularity score is a plain real. A NaN popularity cell read from the database is not modelled.
- `Text.KeepWordChars`: Python's `str.isalnum` also accepts non-ASCII letters and digits, but the model keeps only ASCII ones. That matches the column-name regex but is stricter than the view-name sanitiser.
- `Recommend.GetRecommendations`: the error message shown when the lookup fails is not modelled. Other failures are excluded by requiring a square similarity matrix of the table's size.
