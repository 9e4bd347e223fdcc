/**
 * The four soft-fail loaders.  Each asks the CSV reader for a frame and, when the reader
 * fails, prints one message and returns an empty frame instead of raising.  The reader
 * itself (`pd.read_csv`: decoding, delimiters, headers) is a parameter of the model.
 */
module Loading {
  import opened Tables
  import opened Genres

  /** The arguments a loader passes to `pd.read_csv`: UTF-8 comma-separated text with a
      header row, or `::`-separated text without a header, under the given column names. */
  datatype ReadOptions = Utf8Csv | DoubleColon(names: seq<string>)

  /** What `pd.read_csv` does with a file: a frame, or one of the four exception kinds the
      loaders catch. */
  datatype ReadOutcome =
    | Parsed(frame: Frame)
    | FileNotFound
    | EmptyData
    | ParserError
    | OtherError(detail: string)

  /** The reader, as a function of the file and the options: the files are not modelled. */
  type Reader = (Path, ReadOptions) -> ReadOutcome

  /** A loaded frame together with the messages printed while loading it. */
  datatype Logged = Logged(frame: Frame, log: seq<Message>)

  const RATING_COLUMNS := ["userId", "movieId", "rating", "timestamp"]
  const MOVIE_COLUMNS := ["movieId", "title", "genres"]

  /** The message each `except` branch prints. */
  function Report(path: Path, failure: ReadOutcome): (m: Message)
    requires !failure.Parsed?
    // only an unexpected exception is reported by its own text; the others name the file
    ensures m.UnexpectedReport? <==> failure.OtherError?
    ensures failure.OtherError? ==> m.detail == failure.detail
    ensures !failure.OtherError? ==> (m.NotFoundReport? || m.EmptyFileReport? || m.ParseFailureReport?) && m.path == path
  {
    match failure
    case FileNotFound => NotFoundReport(path)
    case EmptyData => EmptyFileReport(path)
    case ParserError => ParseFailureReport(path)
    case OtherError(detail) => UnexpectedReport(detail)
  }

  /** Different failures of the same file print different messages. */
  lemma ReportDistinguishesFailures(path: Path, f: ReadOutcome, g: ReadOutcome)
    requires !f.Parsed? && !g.Parsed?
    ensures Report(path, f) == Report(path, g) <==> f == g
  {
  }

  /** What a loader returns after catching an exception: one message, no data. */
  function SoftFail(path: Path, failure: ReadOutcome): (r: Logged)
    requires !failure.Parsed?
    ensures IsEmpty(r.frame) && |r.log| == 1
  {
    Logged(EmptyFrame(), [Report(path, failure)])
  }

  /** The genre step inside a movie loader: its AttributeError is caught by the loader's
      generic `except Exception` branch. */
  function AfterGenres(step: GenreStep): (r: Logged)
    ensures step.Processed? ==> r == Logged(step.frame, step.log)
    ensures step.Raised? ==> r.frame == EmptyFrame() && r.log == [UnexpectedReport(step.detail)]
  {
    match step
    case Processed(frame, log) => Logged(frame, log)
    case Raised(detail) => Logged(EmptyFrame(), [UnexpectedReport(detail)])
  }

  /** `load_rating_data_csv`. */
  function LoadRatingDataCsv(read: Reader, path: Path): (r: Logged)
    ensures read(path, Utf8Csv).Parsed? ==> r == Logged(read(path, Utf8Csv).frame, [])
    ensures !read(path, Utf8Csv).Parsed? ==>
      r.frame == EmptyFrame() && r.log == [Report(path, read(path, Utf8Csv))]
  {
    match read(path, Utf8Csv)
    case Parsed(t) => Logged(t, [])
    case failure => SoftFail(path, failure)
  }

  /** `load_rating_data_dat`: `::`-separated, no header, the four rating column names. */
  function LoadRatingDataDat(read: Reader, path: Path): (r: Logged)
    ensures read(path, DoubleColon(RATING_COLUMNS)).Parsed? ==>
      r == Logged(read(path, DoubleColon(RATING_COLUMNS)).frame, [])
    ensures !read(path, DoubleColon(RATING_COLUMNS)).Parsed? ==>
      r.frame == EmptyFrame() && r.log == [Report(path, read(path, DoubleColon(RATING_COLUMNS)))]
  {
    match read(path, DoubleColon(RATING_COLUMNS))
    case Parsed(t) => Logged(t, [])
    case failure => SoftFail(path, failure)
  }

  /** `load_movies_data_csv`: splits the genres only when the file has a `genres` column. */
  function LoadMoviesDataCsv(read: Reader, path: Path): (r: Logged)
    ensures |r.log| <= 1
    ensures !read(path, Utf8Csv).Parsed? ==>
      r.frame == EmptyFrame() && r.log == [Report(path, read(path, Utf8Csv))]
    ensures read(path, Utf8Csv).Parsed? && GENRES !in read(path, Utf8Csv).frame.columns ==>
      r == Logged(read(path, Utf8Csv).frame, [])
    ensures read(path, Utf8Csv).Parsed? && GENRES in read(path, Utf8Csv).frame.columns ==>
      r == AfterGenres(SplitGenres(read(path, Utf8Csv).frame, GENRES))
  {
    match read(path, Utf8Csv)
    case Parsed(t) =>
      if GENRES in t.columns then AfterGenres(SplitGenres(t, GENRES)) else Logged(t, [])
    case failure => SoftFail(path, failure)
  }

  /** `load_movies_data_dat`: `::`-separated, no header, the three movie column names;
      the genres are split unconditionally. */
  function LoadMoviesDataDat(read: Reader, path: Path): (r: Logged)
    ensures |r.log| <= 1
    ensures !read(path, DoubleColon(MOVIE_COLUMNS)).Parsed? ==>
      r.frame == EmptyFrame() && r.log == [Report(path, read(path, DoubleColon(MOVIE_COLUMNS)))]
    ensures read(path, DoubleColon(MOVIE_COLUMNS)).Parsed? ==>
      r == AfterGenres(SplitGenres(read(path, DoubleColon(MOVIE_COLUMNS)).frame, GENRES))
  {
    match read(path, DoubleColon(MOVIE_COLUMNS))
    case Parsed(t) => AfterGenres(SplitGenres(t, GENRES))
    case failure => SoftFail(path, failure)
  }

  // ---------------------------------------------------------------------------------------
  // Properties of the loaders

  /** The CSV movie loader never reports a missing genre column: it checks first. */
  lemma MoviesCsvSplitsOnlyExistingGenres(read: Reader, path: Path)
    ensures MissingColumnReport(GENRES) !in LoadMoviesDataCsv(read, path).log
    ensures var o := read(path, Utf8Csv);
      (o.Parsed? && GENRES in o.frame.columns && !StrAccessorRejects(Column(o.frame, IndexOf(o.frame.columns, GENRES))))
      ==>
      var t, r := o.frame, LoadMoviesDataCsv(read, path).frame;
      && r.columns == t.columns && |r.rows| == |t.rows|
      && forall i, s :: 0 <= i < |t.rows| && CellAt(t, i, GENRES) == Some(Str(s)) ==> TokensOf(CellAt(r, i, GENRES), s)
  {
    match read(path, Utf8Csv)
    case Parsed(t) =>
      if GENRES in t.columns && !StrAccessorRejects(Column(t, IndexOf(t.columns, GENRES))) {
        GenreCellsAreTokens(t, GENRES);
      }
    case _ =>
  }

  /** The `.dat` movie loader always splits: given a reader that applies the column names it
      is handed, the `genres` column exists and every genre string becomes its tokens (or,
      for a column without strings, the loader reports the caught AttributeError). */
  lemma MoviesDatAlwaysSplits(read: Reader, path: Path)
    requires read(path, DoubleColon(MOVIE_COLUMNS)).Parsed? ==>
      read(path, DoubleColon(MOVIE_COLUMNS)).frame.columns == MOVIE_COLUMNS
    ensures MissingColumnReport(GENRES) !in LoadMoviesDataDat(read, path).log
    ensures read(path, DoubleColon(MOVIE_COLUMNS)).Parsed? ==>
      var t, r := read(path, DoubleColon(MOVIE_COLUMNS)).frame, LoadMoviesDataDat(read, path);
      || r == Logged(EmptyFrame(), [UnexpectedReport(STR_ACCESSOR_ERROR)])
      || (&& r.log == [] && r.frame.columns == MOVIE_COLUMNS && |r.frame.rows| == |t.rows|
          && forall i, s :: 0 <= i < |t.rows| && CellAt(t, i, GENRES) == Some(Str(s)) ==>
               TokensOf(CellAt(r.frame, i, GENRES), s))
  {
    match read(path, DoubleColon(MOVIE_COLUMNS))
    case Parsed(t) =>
      assert t.columns[2] == GENRES;
      if SplitGenres(t, GENRES).Processed? {
        GenreCellsAreTokens(t, GENRES);
      }
    case _ =>
  }
}
