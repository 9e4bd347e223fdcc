# MovieLens table preparation, modelled in Dafny

This project models the table-preparation pipeline of a small recommender-evaluation
harness (`utils/preprocessing.py`). The pipeline loads rating and movie tables from
comma-separated files with a header, or from `::`-separated MovieLens `.dat` files without one.
It cleans the tables and splits the pipe-delimited genre strings of the movie table into token lists.

Modules, one per part of the pipeline:

- `Tables` (`Tables.dfy`) holds the data model. A frame is an ordered list of column names plus a list of rows.
  A row has one cell per column, and a cell is missing (`None`, pandas' NaN) or holds an integer, a real, a string or a list of strings.
  Column names do not repeat. `DataFrame` is the mutable object that the genre splitter updates in place.
  `Message` lists the diagnostics the pipeline prints.
- `Cleaning` (`Cleaning.dfy`) holds `drop_duplicates` (keep the first occurrence), `dropna` (drop a row with any missing cell),
  dropping the `timestamp` column, and the two cleaners built from them.
- `Genres` (`Genres.dfy`) holds the literal one-character split and its join,
  the genre step as a function on frames, and `ProcessMovieGenres`, the same step as a method that changes a `DataFrame` in place.
- `Loading` (`Loading.dfy`) holds the four soft-fail loaders. The CSV reader is a parameter.
  It returns a frame or one of the four exception kinds the loaders catch.
- `Preprocessing` (`Preprocessing.dfy`) holds the two dispatchers.

Printed messages are modelled as a log: each function returns its frame together with the messages it printed.
Exceptions are modelled as values too. The loaders catch theirs and return an empty frame with a message. The genre step's `AttributeError`, which `process_movie_genres` does not catch, is the `Raised` outcome of `SplitGenres` and the `raised` result of `ProcessMovieGenres`; the movie loaders turn it into a message, as their `except Exception` branch does.

Behaviour of the code a reader might not expect:

- Rows that differ only in `timestamp` are **not** merged. Deduplication runs while the column is still there, so both rows survive.
  Dropping the column then leaves two equal rows (`CleanRatingKeepsTimestampTwins`, `CleanRatingKeepsRowsDifferingInTimestamp`, `TwoTimestampsTwoRows`).
- A missing file makes a dispatcher print **two** messages, the loader's and "no data to preprocess" (`MissingRatingsFileReportsTwice`).
- `DataFrame.empty` is true when either axis is empty. So a rating file with a header and no rows skips cleaning and keeps its `timestamp` column (`HeaderOnlyRatingsKeepTimestamp`).

## Model

| member | source | states |
|---|---|---|
| `Cleaning.DropDuplicates` | utils/preprocessing.py:45 | the result repeats no row and holds exactly the rows of the input |
| `Cleaning.DropDuplicatesIsSubsequence` | utils/preprocessing.py:45 | deduplication only leaves rows out and keeps the rest in order |
| `Cleaning.DropDuplicatesKeepsFirst` | utils/preprocessing.py:45 | the kept rows appear in the order of their first occurrences, i.e. the first of each group of equal rows is the one kept |
| `Cleaning.DropNa` | utils/preprocessing.py:48 | a row is in the result exactly when it is in the input and has no missing cell; every complete row occurs in the result as often as in the input, and an incomplete one not at all; no repeats in means no repeats out |
| `Cleaning.DropNaIsSubsequence` | utils/preprocessing.py:48 | dropping incomplete rows keeps the others in order |
| `Cleaning.DropColumn` | utils/preprocessing.py:52 | the dropped column is gone, the frame has one column fewer and as many rows |
| `Cleaning.DropColumnKeepsOtherNames` | utils/preprocessing.py:52 | every other column is kept, in its original order, and no column is added |
| `Cleaning.DropColumnKeepsOtherValues` | utils/preprocessing.py:52 | every remaining column holds the same value in every row as before |
| `Cleaning.DropTimestamp` | utils/preprocessing.py:51-52 | `timestamp` is absent afterwards, the other columns remain, and a frame without `timestamp` is returned unchanged |
| `Cleaning.CleanRatingDataset` | utils/preprocessing.py:43-53 | the result has no `timestamp` column, keeps every other column, and has no missing cell |
| `Cleaning.CleanRatingRowsComeFromInput` | utils/preprocessing.py:43-53 | every output row is an input row with `timestamp` removed, in input order |
| `Cleaning.CleanRatingIdempotentWithoutTimestamp` | utils/preprocessing.py:43-53 | without a `timestamp` column, cleaning twice equals cleaning once |
| `Cleaning.CleanRatingIsCleanMoviesWithoutTimestamp` | utils/preprocessing.py:43-53 | the rating cleaner equals the movie cleaner followed by dropping `timestamp`, so its rows are exactly the first occurrences of the complete input rows, `timestamp` removed |
| `Cleaning.CleanRatingKeepsCompleteRows` | utils/preprocessing.py:43-53 | every complete input row appears in the output with `timestamp` removed |
| `Cleaning.CleanRatingKeepsTimestampTwins` | utils/preprocessing.py:45-52 | in any frame, two different complete rows that agree except in `timestamp` come out as the same row at two different positions |
| `Cleaning.CleanRatingKeepsRowsDifferingInTimestamp` | utils/preprocessing.py:45-52 | two complete rows that differ only in `timestamp` both survive as equal rows, and a second cleaning merges them, so the cleaner is not idempotent with a `timestamp` column |
| `Cleaning.TwoTimestampsTwoRows` | utils/preprocessing.py:45-52 | ratings (1, 10, 4.0, 1000) and (1, 10, 4.0, 2000) clean to two rows (1, 10, 4.0) |
| `Cleaning.CleanMoviesDataset` | utils/preprocessing.py:128-135 | the columns are unchanged, no row repeats, and a row is kept exactly when it occurs in the input and is complete |
| `Cleaning.CleanMoviesKeepsFirstOccurrences` | utils/preprocessing.py:128-135 | the kept rows are a subsequence of the input in first-occurrence order |
| `Cleaning.CleanMoviesIdempotent` | utils/preprocessing.py:128-135 | cleaning movies twice equals cleaning them once |
| `Genres.SplitCell` | utils/preprocessing.py:79 | a string cell becomes a token list that rejoins to the string, has one token more than separators and no separator in any token; every other cell becomes missing |
| `Genres.StrAccessorRejects` | utils/preprocessing.py:79 | a refused column has rows and nothing the split could turn into tokens; an accepted column has no rows or holds some string or list |
| `Genres.Split` | utils/preprocessing.py:79 | a split always yields at least one token |
| `Genres.JoinSplit` | utils/preprocessing.py:79 | joining the tokens with `\|` gives back the original string |
| `Genres.SplitJoin` | utils/preprocessing.py:79 | splitting the join of a non-empty list of separator-free tokens gives the tokens back |
| `Genres.SplitCount` | utils/preprocessing.py:79 | there is one token more than there are `\|` characters, so empty tokens are kept |
| `Genres.SplitTokensFree` | utils/preprocessing.py:79 | no token contains `\|` |
| `Genres.SplitExamples` | utils/preprocessing.py:79 | `Action\|Comedy` gives `[Action, Comedy]`, `Action\|Comedy\|` gives `[Action, Comedy, ""]`, the empty string gives `[""]` |
| `Genres.SplitGenres` | utils/preprocessing.py:73-81 | an absent column leaves the frame unchanged with one message; otherwise the step raises exactly when the column has rows and no string; when it does not raise, only the tag column changes, each cell by `SplitCell` |
| `Genres.GenreCellsAreTokens` | utils/preprocessing.py:78-79 | after the split, each string cell of the genre column holds tokens that rejoin to it, one more than its separators, none containing `\|`; missing cells stay missing |
| `Genres.ProcessMovieGenres` | utils/preprocessing.py:73-81 | updates the given `DataFrame` in place and returns that same object; the new state and log are those of `SplitGenres`, and when the exception escapes the object is unchanged |
| `Loading.Report` | utils/preprocessing.py:9-20 | only an unexpected exception is reported by its own text; a missing, empty or unparsable file is reported by its path |
| `Loading.ReportDistinguishesFailures` | utils/preprocessing.py:9-20 | two failures of the same file print the same message exactly when they are the same failure |
| `Loading.SoftFail` | utils/preprocessing.py:9-20 | a caught failure gives an empty frame and exactly one message |
| `Loading.AfterGenres` | utils/preprocessing.py:100-102 | an exception from the genre step becomes an empty frame with one unexpected-error message |
| `Loading.LoadRatingDataCsv` | utils/preprocessing.py:5-20 | a parsed file is returned as read, silently; any reader failure gives the empty frame and exactly that failure's message |
| `Loading.LoadRatingDataDat` | utils/preprocessing.py:23-40 | the same, for the `::` reader with the four rating column names |
| `Loading.LoadMoviesDataCsv` | utils/preprocessing.py:84-102 | at most one message; failures soft-fail; the genres are split only when a `genres` column exists, otherwise the frame is returned as read |
| `Loading.LoadMoviesDataDat` | utils/preprocessing.py:105-124 | at most one message; failures soft-fail; the genre step always runs |
| `Loading.MoviesCsvSplitsOnlyExistingGenres` | utils/preprocessing.py:87-89 | the CSV movie loader never reports a missing genre column, and a splittable `genres` column comes back as token lists |
| `Loading.MoviesDatAlwaysSplits` | utils/preprocessing.py:109-111 | with a reader that applies the given names, the `.dat` movie loader always finds `genres` and turns every genre string into its tokens, or reports the caught exception |
| `Tables.IsEmpty` | utils/preprocessing.py:65 | `DataFrame.empty` is false exactly when some row holds a cell, so a frame with columns and no rows is empty |
| `Preprocessing.PreprocessRatingData` | utils/preprocessing.py:56-70 | an unknown type gives the empty frame and one message regardless of the files; an empty load is returned as is plus "no data", without cleaning; otherwise the result is the cleaned load; no row has a missing cell and `timestamp` remains only without rows |
| `Preprocessing.PreprocessMoviesData` | utils/preprocessing.py:138-152 | the same dispatch for movies; no row has a missing cell and a non-empty result repeats no row |
| `Preprocessing.MissingRatingsFileReportsTwice` | utils/preprocessing.py:56-67 | a missing file gives the empty frame with the loader's not-found message followed by the dispatcher's no-data message |
| `Preprocessing.HeaderOnlyRatingsKeepTimestamp` | utils/preprocessing.py:65-67 | a header-only rating CSV skips cleaning and keeps its `timestamp` column |
| `Preprocessing.RatingRowsComeFromFile` | utils/preprocessing.py:65-70 | the rating rows returned are rows of the loaded file minus `timestamp`, in file order |
| `Preprocessing.MovieRowsFirstOccurrences` | utils/preprocessing.py:147-152 | the movie rows returned are a first-occurrence-ordered subsequence of the loaded rows, and cleaning them again changes nothing |

## Left out

- File reading: `pd.read_csv` (UTF-8 decoding, the `,` and `::` delimiters, header handling, type inference) is a parameter of the model. The model gives it the path and options and gets back a frame or one of the four caught exception kinds.
- Message text: only which message is printed, in what order, is modelled, not the formatted text.
- Loading.LoadMoviesDataDat: the model does not assume that the reader honours the column names it is given. `MoviesDatAlwaysSplits` states that assumption as a precondition instead.
- Cleaning.CleanMoviesDataset: compares rows by value. After the genre split, pandas' `drop_duplicates` would raise TypeError on the unhashable token lists, and nothing catches it. The model cleans such frames instead of raising.
- Row index: the model has none. pandas keeps each surviving row's original index label after `drop_duplicates` and `dropna`, so the returned frames have gaps in their index; the model only keeps the rows' order.
- Deduplication treats two missing cells as equal, as pandas does. This does not change any result, because the rows involved are dropped by `dropna` right after.
- Genres.SplitGenres: the model approximates when pandas' `.str` accessor raises. It raises when a column has rows and no string or list cell, i.e. when pandas has given the column a numeric type. Pandas' own type inference is not modelled.
- `utils/visualization.py` (plotting) and `utils/evaluation.py` (the external recommender library's metrics and wall-clock timing) are not part of this model.
