/**
 * The tabular data model of the preprocessing pipeline: a pandas DataFrame seen as an
 * ordered list of column names plus a list of rows, each row one cell per column, where a
 * cell is either missing (NaN) or holds a value.  Also the diagnostics the pipeline prints.
 */
module Tables {

  datatype Option<+T> = None | Some(value: T)

  /** The values a cell can hold: numbers and strings as parsed by the reader, and the
      token lists that the genre splitter puts in place of a pipe-delimited string. */
  datatype Value = Int(i: int) | Real(r: real) | Str(s: string) | StrList(items: seq<string>)

  /** `None` is a missing cell (NaN in pandas). */
  type Cell = Option<Value>

  type Row = seq<Cell>

  type Path = string

  datatype Table = Table(columns: seq<string>, rows: seq<Row>)

  predicate Distinct<T(==)>(s: seq<T>) {
    forall i, j :: 0 <= i < j < |s| ==> s[i] != s[j]
  }

  /** Every row has one cell per column, and no column name repeats (the reader renames
      repeated headers, and every frame the pipeline builds keeps this). */
  predicate WellFormed(t: Table) {
    && Distinct(t.columns)
    && forall i :: 0 <= i < |t.rows| ==> |t.rows[i]| == |t.columns|
  }

  type Frame = t: Table | WellFormed(t) witness Table([], [])

  /** `pd.DataFrame()`: no columns and no rows. */
  function EmptyFrame(): (r: Frame)
    ensures r.columns == [] && r.rows == []
  {
    Table([], [])
  }

  /** `DataFrame.empty`: true when either axis has length zero, so a frame with a header
      and no rows is empty too. */
  function IsEmpty(t: Frame): (b: bool)
    // a frame is non-empty exactly when some row holds a cell
    ensures !b <==> exists i :: 0 <= i < |t.rows| && t.rows[i] != []
  {
    var empty := |t.columns| == 0 || |t.rows| == 0;
    assert !empty ==> t.rows[0] != [];
    empty
  }

  /** A row with no missing cell. */
  predicate Complete(row: Row) {
    None !in row
  }

  /** Position of the first occurrence of `x` in `s`. */
  function IndexOf<T(==)>(s: seq<T>, x: T): (k: nat)
    requires x in s
    ensures k < |s| && s[k] == x && x !in s[..k]
  {
    if s[0] == x then 0
    else
      var k := 1 + IndexOf(s[1..], x);
      assert s[..k] == [s[0]] + s[1..][..k - 1];
      k
  }

  /** In a list without repeats, the position of an element is its only position. */
  lemma IndexOfDistinct<T>(s: seq<T>, k: nat)
    requires Distinct(s) && k < |s|
    ensures IndexOf(s, s[k]) == k
  {
  }

  /** The cell of row `i` under column `name`. */
  function CellAt(t: Frame, i: nat, name: string): Cell
    requires i < |t.rows| && name in t.columns
  {
    t.rows[i][IndexOf(t.columns, name)]
  }

  /** The cells of column `k`, top to bottom. */
  function Column(t: Frame, k: nat): (col: seq<Cell>)
    requires k < |t.columns|
    ensures |col| == |t.rows|
  {
    seq(|t.rows|, i requires 0 <= i < |t.rows| => t.rows[i][k])
  }

  /** Diagnostics the pipeline prints; their exact wording is not modelled. */
  datatype Message =
    | NotFoundReport(path: Path)           // the file does not exist
    | EmptyFileReport(path: Path)          // the file has no content
    | ParseFailureReport(path: Path)       // the file could not be parsed
    | UnexpectedReport(detail: string)     // any other exception, with its text
    | UnsupportedTypeReport(fileType: string)
    | NoDataReport                         // a load gave an empty frame
    | MissingColumnReport(column: string)  // the genre column is absent

  /** A DataFrame object, whose columns the genre splitter updates in place. */
  class DataFrame {
    var columns: seq<string>
    var rows: seq<Row>

    function Value(): Table
      reads this
    {
      Table(columns, rows)
    }

    ghost predicate Valid()
      reads this
    {
      WellFormed(Value())
    }

    constructor (t: Frame)
      ensures Valid() && Value() == t
    {
      columns := t.columns;
      rows := t.rows;
    }
  }
}
