# Cell-count ingestion and cohort analysis, modelled in Dafny

The repository has two scripts:

- `load_data.py` ingests a flat CSV of immune-cell counts into a SQLite store. Each row has one subject and one sample.
  - `initialize_database` deletes the old store and creates two empty tables: **Subjects**, keyed by `subject_id`, and **Samples**, keyed by `sample_id`, with a foreign key to Subjects.
  - `load_data` walks the rows in one transaction:
    - it inserts a subject the first time the subject's id is seen, using a `processed_subjects` set;
    - it inserts one sample per row;
    - it converts age, time and the five counts with Python's `int()`, and SQLite refuses to bind any of them outside the signed 64-bit range;
    - it commits after the loop, or rolls back on the first exception.
- `analysis.py` reads a long-form `cell_counts` table, with one row per sample and population.
  - `run_statistical_analysis` selects melanoma / miraclib / pbmc rows. For each population, in `unique()` order, it splits the rows into responders (`'yes'`) and non-responders (`'no'`). It runs a t-test only when both groups have more than one row, and calls the result significant when `p < 0.05`.
  - `run_subset_analysis` selects melanoma rows at time 0. It counts distinct subjects per project, per response and per sex.

The model has five modules:

| file | module | what it holds |
|---|---|---|
| `Wrappers.dfy` | `Wrappers` | `Option`, `Result` and `Outcome` |
| `IntText.dfy` | `IntText` | `ParseInt`, Python's `int()` on decimal text, and its round trip with `Show` |
| `Ingestion.dfy` | `Ingestion` | see below |
| `LoadData.dfy` | `LoadData` | see below |
| `Analysis.dfy` | `Analysis` | see below |

- **`Ingestion`** specifies the loader as pure functions:
  - CSV rows are maps from an enumerated `Column` to text;
  - `InsertRow` is one loop iteration, `LoadRows` is the loop, and `LoadSource` adds the missing-file case;
  - the lemmas state what a successful load stores and when a load fails.
- **`LoadData`** is the imperative script:
  - a `Database` class whose `subjects` and `samples` fields are the committed tables;
  - `Initialize` recreates the empty tables;
  - `Load` is a `while` loop over the rows. It works on a pending copy of the tables and a local processed set, and assigns the fields once after the loop. It returns early, fields untouched, on the first failing row. Its contract ties it to `LoadSource`.
- **`Analysis`** holds:
  - the two cohort filters and `unique()`;
  - the response partition, the guard and significance rule (`Assess`), and the report loop;
  - the distinct-subject summaries.

  The two-sample test is a function parameter that returns `NaN` or a real p-value.

## Model

| member | source | states |
|---|---|---|
| IntText.ParseShow | load_data.py:114-119 | `int()` reads back the canonical decimal text of every integer, negative ones included |
| IntText.BlankIsNotAnInteger | load_data.py:114-119 | an empty cell, or one made only of spaces, tabs, line breaks, vertical tabs and form feeds, is not an integer, so `int()` fails on it |
| IntText.ForeignCharacterIsNotAnInteger | load_data.py:114-119 | a cell holding any character other than a sign, a digit, `_` or the whitespace `int()` skips is not an integer; the separators 0x1C to 0x1F are such characters |
| Ingestion.ParseSample | load_data.py:107-120 | a parsed and bound sample is keyed by the row's `sample` cell and refers to the row's subject |
| Ingestion.InsertRowCharacterized | load_data.py:88-120 | one iteration succeeds iff: the row names its subject; the subject (when new) parses, its age fits SQLite's signed 64-bit range, and it is not yet stored; the sample parses, its integers fit that range, and its id is not yet stored. Then it stores the new subject and the sample |
| Ingestion.LoadedSubjectKeys | load_data.py:77-104 | after a successful loop, Subjects holds the earlier keys plus exactly the row subjects not processed before |
| Ingestion.SubjectsNeverOverwritten | load_data.py:91-104 | a stored subject is never overwritten by later rows |
| Ingestion.FirstRowFixesSubject | load_data.py:91-104 | the first row of a subject fixes all its stored attributes |
| Ingestion.RepeatRowSubjectCellsIgnored | load_data.py:91-104 | the subject cells of a later row of an already processed subject, age included, are never read: changing them changes nothing, not even whether the load fails |
| Ingestion.LoadedSampleKeys | load_data.py:107-120 | a successful loop adds one sample per row, keyed by the row's sample id |
| Ingestion.SamplesNeverOverwritten | load_data.py:107-120 | samples stored before the loop are kept unchanged |
| Ingestion.EachRowStoresItsSample | load_data.py:107-120 | row i's sample is stored as parsed from that row, with `subject_id` equal to the row's `subject` |
| Ingestion.LoadKeepsReferences | load_data.py:91-120 | if every stored sample refers to a stored subject before the loop, this still holds after it, because each subject is inserted before its sample |
| Ingestion.LoadCommitsIffAdmissible | load_data.py:87-122 | the loop succeeds iff: every row names its subject, and its sample parses with its time and counts in SQLite's signed 64-bit range; every first row of a new subject parses with its age in that range, and its subject is not yet stored; every sample id is new and distinct |
| Ingestion.DuplicateSampleIdRollsBack | load_data.py:107-120 | two rows with the same sample id make the load fail |
| Ingestion.MalformedSampleCellRollsBack | load_data.py:107-120 | a row missing any sample cell, or whose time or count cell `int()` rejects or SQLite cannot store (outside the signed 64-bit range), makes the load fail |
| Ingestion.MalformedFirstSubjectRowRollsBack | load_data.py:91-104 | the first row of a new subject makes the load fail when it misses any subject cell, or when `int()` rejects its age or SQLite cannot store it (outside the signed 64-bit range) |
| Ingestion.LoadIntoEmptyTables | load_data.py:77-120 | loading into fresh tables gives one subject per distinct subject id, one sample per row, and no dangling subject reference |
| Ingestion.ReloadWithoutInitializeFails | load_data.py:77-104 | a second load of the same rows without re-initialising fails on the first row's subject, which is already stored |
| LoadData.Database.Initialize | load_data.py:12-65 | the store becomes the two empty tables, whatever it held |
| LoadData.Database.Load | load_data.py:67-132 | success commits exactly the `LoadSource` result; a missing file or a failing row (a missing cell, a cell `int()` rejects, an integer outside SQLite's signed 64-bit range, a repeated key) leaves the committed tables as they were; the foreign-key invariant is kept |
| LoadData.ExecuteRow | load_data.py:87-120 | the loop body computes `InsertRow`, grows the processed set by the row's subject, and keeps processed set and Subjects keys in step |
| LoadData.InitializeAndLoadTwice | load_data.py:135-137 | initialise-then-load run twice on the same source ends with identical tables: the load into empty tables, or empty tables on failure |
| Analysis.SelectContents | analysis.py:61-62 | a boolean mask keeps every accepted row as often as it occurs and no other row |
| Analysis.ComparisonCohort | analysis.py:26-33 | the comparison cohort is exactly the rows with disease `melanoma`, treatment `miraclib` and sample type `pbmc`, compared case-sensitively, with multiplicity |
| Analysis.BaselineCohort | analysis.py:93-99 | the baseline cohort is exactly the rows with disease `melanoma` and time 0, with multiplicity |
| Analysis.UniqueInOrder | analysis.py:55 | `unique()` lists exactly the values that occur, each once |
| Analysis.UniqueInOrderFollowsFirstOccurrence | analysis.py:55 | `unique()` lists values in order of first occurrence |
| Analysis.PopulationsOfCohort | analysis.py:55-56 | each population of the cohort is reported exactly once, in order of its first row; an empty cohort reports none |
| Analysis.PopulationPartition | analysis.py:61-62 | a population's rows split into `'yes'`, `'no'` and other responses; no row belongs to two of them, and together they add up to all of its rows, with multiplicity |
| Analysis.AssessmentRule | analysis.py:65-75 | a population is tested iff it has at least two `'yes'` rows and two `'no'` rows; the test receives those groups' counts; the result is significant iff p is a number strictly below 0.05 |
| Analysis.GuardIgnoresCountValues | analysis.py:65-66 | the guard counts rows, not count values: two tables that differ only in their counts, NULL or not, get the same test-or-skip decision for every population |
| Analysis.AssessPopulation | analysis.py:60-75 | one loop iteration yields `Assess` for its population |
| Analysis.AssessEach | analysis.py:56-75 | the loop over populations yields `AssessAll` |
| Analysis.AssessAllPointwise | analysis.py:56-75 | `AssessAll` has one result per population, in the same order, each the `Assess` of that population |
| Analysis.RunStatisticalAnalysis | analysis.py:16-76 | the report has one entry per population of the comparison cohort, in `unique()` order, each as `Assess` decides |
| Analysis.RepeatedSubjectCountsOnce | analysis.py:106-116 | another row for a subject already counted under its value changes no summary count (this holds for the `sample_count` column too) |
| Analysis.NewSubjectCountsOne | analysis.py:106-116 | a row for a subject not yet counted under its value adds exactly one to that value's count and changes nothing else |
| Analysis.DistinctSubjectCountBounds | analysis.py:106-118 | a summary lists exactly the values occurring in the cohort; each count is at least 1 and at most the number of rows with that value |
| Analysis.SummaryIgnoresOtherRows | analysis.py:93-118 | a row outside the baseline cohort, inserted anywhere in the table, changes no summary |
| Analysis.EmptyBaselineSummary | analysis.py:93-118 | with no baseline rows all three summaries are empty |

## Left out

- SQLite itself is left out:
  - connections, DDL text, cursors and `pd.read_sql_query` are not modelled;
  - tables are maps keyed by their primary key, and WHERE clauses and masks are predicates.
  - The foreign key (load_data.py:58) is stated as the invariant `ReferencesKnownSubjects`, not enforced.
- File handling and `csv.DictReader` are left out.
  - The source is `Option<seq<Row>>`, and `None` stands for the missing file.
  - A row is a map, so a short row's `None` cells and a file's header line are not modelled.
  - A row without a `subject` column fails with `MissingColumn`. In the script that is the `KeyError` of load_data.py:88, caught at load_data.py:128 and rolled back. Since every row of a `DictReader` has the header's keys, it can only happen on the first row.
- `IntText.ParseInt`: covers ASCII digits, one sign, single underscores between digits, and the whitespace `int()` skips in ASCII text (space, tab, line feed, vertical tab, form feed, carriage return). It does not model the non-ASCII digits and Unicode whitespace that Python's `int()` also accepts.
- `IntText.ParseInt`: does not model the limit of 4300 digits that `int()` enforces on Python 3.11 and later. A cell such as 5000 zeros followed by `1` parses to 1 in the model but raises `ValueError` there, so the load rolls back.
- The boxplot, printing and the `{:.4f}` formatting are left out (console and file output).
- The broad `except ... print` handlers in analysis.py are left out. A failing query is reported, not computed on.
- `ttest_ind` and the p-value numerics are left out because they are foreign floating-point code.
  - The test is a parameter returning `NaN` or a real.
  - `NaN < 0.05` is false, so NaN is never significant.
- `part4_query.py` is not part of this model. It is one SQL query and a mean, with no decisions of its own.
- The two scripts are not connected. analysis.py reads a `cell_counts` table with `disease`, `time`, `population` and `count` columns that load_data.py never creates, so the analysis is modelled over an abstract sequence of long-form `CellCount` rows.
- No wide-to-long reshape exists in the code, so none is modelled.
- Text columns of `cell_counts` are never NULL in the model.
  - pandas' `groupby` and `nunique` silently drop NULL keys and NULL subject ids, which the model therefore does not show.
  - Only `count` may be NULL.
- `Analysis.SubsetAnalysis` returns maps, so the row order of pandas' group-by output is not modelled.
- `Analysis.AssessmentRule`: the rounding of the printed p-value is not modelled, only the full-precision comparison.

Behaviours of the code that the model keeps as written:

- Populations are reported in order of first appearance (`unique()`, analysis.py:55). No fixed order of populations is imposed.
- The guard (analysis.py:65) counts rows before NULL counts are omitted. It does not count non-missing observations.
- A failed load rolls back to the empty tables that `initialize_database` created (load_data.py:135-137). The store itself still exists.
- A later row of a known subject is never checked (load_data.py:91): a bad age there does not fail the load.
