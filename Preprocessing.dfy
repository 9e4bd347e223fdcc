/**
 * The two dispatchers, `preprocess_rating_data` and `preprocess_movies_data`: choose the
 * loader by file type, refuse other types, hand back an empty load untouched and clean
 * anything else.
 */
module Preprocessing {
  import opened Tables
  import opened Cleaning
  import opened Genres
  import opened Loading

  predicate Supported(fileType: string) {
    fileType == "csv" || fileType == "dat"
  }

  /** The loader a dispatcher calls for a supported file type. */
  function LoadRatings(read: Reader, path: Path, fileType: string): Logged
    requires Supported(fileType)
  {
    if fileType == "csv" then LoadRatingDataCsv(read, path) else LoadRatingDataDat(read, path)
  }

  function LoadMovies(read: Reader, path: Path, fileType: string): Logged
    requires Supported(fileType)
  {
    if fileType == "csv" then LoadMoviesDataCsv(read, path) else LoadMoviesDataDat(read, path)
  }

  /** `preprocess_rating_data`. */
  function PreprocessRatingData(read: Reader, path: Path, fileType: string): (r: Logged)
    // an unknown type loads nothing and prints one message, whatever the files hold
    ensures !Supported(fileType) ==> r == Logged(EmptyFrame(), [UnsupportedTypeReport(fileType)])
    // an empty load is handed back as it is, with one more message, and not cleaned
    ensures Supported(fileType) && IsEmpty(LoadRatings(read, path, fileType).frame) ==>
      r == Logged(LoadRatings(read, path, fileType).frame, LoadRatings(read, path, fileType).log + [NoDataReport])
    ensures Supported(fileType) && !IsEmpty(LoadRatings(read, path, fileType).frame) ==>
      r == Logged(CleanRatingDataset(LoadRatings(read, path, fileType).frame), LoadRatings(read, path, fileType).log)
    // whatever happened, no row has a missing cell, and `timestamp` survives only without rows
    ensures forall row :: row in r.frame.rows ==> Complete(row)
    ensures TIMESTAMP in r.frame.columns ==> r.frame.rows == []
    ensures |r.log| <= 2
  {
    if !Supported(fileType) then
      Logged(EmptyFrame(), [UnsupportedTypeReport(fileType)])
    else
      var data := LoadRatings(read, path, fileType);
      if IsEmpty(data.frame) then
        EmptyRowsComplete(data.frame);
        Logged(data.frame, data.log + [NoDataReport])
      else
        Logged(CleanRatingDataset(data.frame), data.log)
  }

  /** `preprocess_movies_data`. */
  function PreprocessMoviesData(read: Reader, path: Path, fileType: string): (r: Logged)
    ensures !Supported(fileType) ==> r == Logged(EmptyFrame(), [UnsupportedTypeReport(fileType)])
    ensures Supported(fileType) && IsEmpty(LoadMovies(read, path, fileType).frame) ==>
      r == Logged(LoadMovies(read, path, fileType).frame, LoadMovies(read, path, fileType).log + [NoDataReport])
    ensures Supported(fileType) && !IsEmpty(LoadMovies(read, path, fileType).frame) ==>
      r == Logged(CleanMoviesDataset(LoadMovies(read, path, fileType).frame), LoadMovies(read, path, fileType).log)
    // whatever happened, no row has a missing cell, and a frame with data has no repeated row
    ensures forall row :: row in r.frame.rows ==> Complete(row)
    ensures !IsEmpty(r.frame) ==> Distinct(r.frame.rows)
    ensures |r.log| <= 2
  {
    if !Supported(fileType) then
      Logged(EmptyFrame(), [UnsupportedTypeReport(fileType)])
    else
      var data := LoadMovies(read, path, fileType);
      if IsEmpty(data.frame) then
        EmptyRowsComplete(data.frame);
        Logged(data.frame, data.log + [NoDataReport])
      else
        Logged(CleanMoviesDataset(data.frame), data.log)
  }

  /** The rows of an empty frame are vacuously complete: there are none, or they have no
      cells. */
  lemma EmptyRowsComplete(t: Frame)
    requires IsEmpty(t)
    ensures forall row :: row in t.rows ==> Complete(row)
  {
  }

  // ---------------------------------------------------------------------------------------
  // Properties of the dispatchers

  /** A missing ratings file gives an empty result and two messages: the loader's and the
      dispatcher's. */
  lemma MissingRatingsFileReportsTwice(read: Reader, path: Path, fileType: string)
    requires fileType == "csv" ==> read(path, Utf8Csv) == FileNotFound
    requires fileType == "dat" ==> read(path, DoubleColon(RATING_COLUMNS)) == FileNotFound
    requires Supported(fileType)
    ensures PreprocessRatingData(read, path, fileType) == Logged(EmptyFrame(), [NotFoundReport(path), NoDataReport])
  {
  }

  /** A ratings file with a header and no rows is not cleaned, so its `timestamp` column
      comes back. */
  lemma HeaderOnlyRatingsKeepTimestamp(read: Reader, path: Path)
    requires read(path, Utf8Csv).Parsed? && read(path, Utf8Csv).frame.rows == []
    requires TIMESTAMP in read(path, Utf8Csv).frame.columns
    ensures TIMESTAMP in PreprocessRatingData(read, path, "csv").frame.columns
    ensures PreprocessRatingData(read, path, "csv").log == [NoDataReport]
  {
  }

  /** The ratings that come out are rows of the file, `timestamp` removed, in file order. */
  lemma RatingRowsComeFromFile(read: Reader, path: Path, fileType: string)
    requires Supported(fileType) && !IsEmpty(LoadRatings(read, path, fileType).frame)
    ensures SubsequenceOf(PreprocessRatingData(read, path, fileType).frame.rows,
                          DropTimestamp(LoadRatings(read, path, fileType).frame).rows)
  {
    CleanRatingRowsComeFromInput(LoadRatings(read, path, fileType).frame);
  }

  /** The movies that come out are the complete rows of the load, each once, in the order
      of their first appearance; cleaning them again changes nothing. */
  lemma MovieRowsFirstOccurrences(read: Reader, path: Path, fileType: string)
    requires Supported(fileType) && !IsEmpty(LoadMovies(read, path, fileType).frame)
    ensures var loaded, r := LoadMovies(read, path, fileType).frame, PreprocessMoviesData(read, path, fileType).frame;
      && SubsequenceOf(r.rows, loaded.rows)
      && InFirstOccurrenceOrder(r.rows, loaded.rows)
      && CleanMoviesDataset(r) == r
  {
    var loaded := LoadMovies(read, path, fileType).frame;
    CleanMoviesKeepsFirstOccurrences(loaded);
    CleanMoviesIdempotent(loaded);
  }
}
