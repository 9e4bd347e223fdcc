/**
 * The genre splitter: `process_movie_genres` replaces every string of the tag column by the
 * list of its `|`-separated tokens, in place on the DataFrame it is given.
 */
module Genres {
  import opened Tables

  const SEPARATOR := '|'
  const GENRES := "genres"

  /** The text of the AttributeError pandas raises when `.str` meets a non-string column. */
  const STR_ACCESSOR_ERROR := "Can only use .str accessor with string values!"

  /** `str.split(sep)` with a one-character separator: split on every occurrence, literally,
      keeping empty tokens. */
  function Split(s: string, sep: char): (r: seq<string>)
    ensures |r| >= 1
    decreases |s|
  {
    if s == [] then [""]
    else
      var rest := Split(s[1..], sep);
      if s[0] == sep then [""] + rest else [[s[0]] + rest[0]] + rest[1..]
  }

  /** `sep.join(tokens)`. */
  function Join(tokens: seq<string>, sep: char): string
    decreases |tokens|
  {
    if tokens == [] then ""
    else if |tokens| == 1 then tokens[0]
    else tokens[0] + [sep] + Join(tokens[1..], sep)
  }

  function Occurrences(s: string, c: char): nat
    decreases |s|
  {
    if s == [] then 0 else (if s[0] == c then 1 else 0) + Occurrences(s[1..], c)
  }

  /** A string cell becomes its token list; a missing cell stays missing, and any other
      value (a number or a list in a column of mixed values) becomes missing. */
  function SplitCell(c: Cell): (r: Cell)
    ensures c.Some? && c.value.Str? ==> TokensOf(r, c.value.s)
    ensures !(c.Some? && c.value.Str?) ==> r == None
  {
    match c
    case Some(Str(s)) =>
      JoinSplit(s, SEPARATOR);
      SplitCount(s, SEPARATOR);
      SplitTokensFree(s, SEPARATOR);
      Some(StrList(Split(s, SEPARATOR)))
    case _ => None
  }

  predicate Numeric(c: Cell) {
    c.None? || c.value.Int? || c.value.Real?
  }

  /** A cell `.str` can work on: a string, or a list of strings. */
  predicate HoldsText(c: Cell) {
    c.Some? && (c.value.Str? || c.value.StrList?)
  }

  /** `.str` refuses a column with rows none of which holds a string or a list: pandas has
      given it a numeric type (a column of numbers, or of nothing but missing cells). */
  function StrAccessorRejects(column: seq<Cell>): (b: bool)
    // a refused column has nothing the split could turn into tokens
    ensures b ==> |column| > 0 && forall i :: 0 <= i < |column| ==> SplitCell(column[i]).None?
    // an accepted column is empty or holds some text
    ensures !b ==> |column| == 0 || exists i :: 0 <= i < |column| && HoldsText(column[i])
  {
    |column| > 0 && forall i :: 0 <= i < |column| ==> Numeric(column[i])
  }

  function SplitColumnAt(t: Frame, k: nat): (r: Frame)
    requires k < |t.columns|
    ensures r.columns == t.columns && |r.rows| == |t.rows|
  {
    Table(t.columns, seq(|t.rows|, i requires 0 <= i < |t.rows| => t.rows[i][k := SplitCell(t.rows[i][k])]))
  }

  /** What `process_movie_genres` does to a frame: the frame it leaves behind and what it
      prints, or the exception it lets escape. */
  datatype GenreStep = Processed(frame: Frame, log: seq<Message>) | Raised(detail: string)

  function SplitGenres(t: Frame, tagColumn: string): (r: GenreStep)
    ensures tagColumn !in t.columns ==> r == Processed(t, [MissingColumnReport(tagColumn)])
    ensures tagColumn in t.columns ==>
      (r.Raised? <==> StrAccessorRejects(Column(t, IndexOf(t.columns, tagColumn))))
    ensures r.Raised? ==> r.detail == STR_ACCESSOR_ERROR
    ensures tagColumn in t.columns && r.Processed? ==>
      && r.log == []
      && r.frame.columns == t.columns && |r.frame.rows| == |t.rows|
      && (forall i, c :: 0 <= i < |t.rows| && c in t.columns && c != tagColumn ==>
            CellAt(r.frame, i, c) == CellAt(t, i, c))
      && (forall i :: 0 <= i < |t.rows| ==> CellAt(r.frame, i, tagColumn) == SplitCell(CellAt(t, i, tagColumn)))
  {
    if tagColumn !in t.columns then Processed(t, [MissingColumnReport(tagColumn)])
    else
      var k := IndexOf(t.columns, tagColumn);
      if StrAccessorRejects(Column(t, k)) then Raised(STR_ACCESSOR_ERROR)
      else Processed(SplitColumnAt(t, k), [])
  }

  /** `process_movie_genres(df, tag_column)`: assigns the split column into `df` itself and
      returns that same object; `raised` stands for the AttributeError it does not catch. */
  method ProcessMovieGenres(df: DataFrame, tagColumn: string) returns (r: DataFrame, log: seq<Message>, raised: bool)
    requires df.Valid()
    modifies df
    ensures r == df && df.Valid()
    ensures raised ==> unchanged(df) && SplitGenres(old(df.Value()), tagColumn) == Raised(STR_ACCESSOR_ERROR)
    ensures !raised ==> SplitGenres(old(df.Value()), tagColumn) == Processed(df.Value(), log)
  {
    r, log, raised := df, [], false;
    if tagColumn !in df.columns {
      log := [MissingColumnReport(tagColumn)];
      return;
    }
    var t: Frame := df.Value();
    var k := IndexOf(df.columns, tagColumn);
    if StrAccessorRejects(Column(t, k)) {
      raised := true;
      return;
    }
    df.rows := SplitColumnAt(t, k).rows;
  }

  // ---------------------------------------------------------------------------------------
  // Tokens

  /** Joining the tokens with `|` gives back the original string. */
  lemma {:induction false} JoinSplit(s: string, sep: char)
    ensures Join(Split(s, sep), sep) == s
    decreases |s|
  {
    if s != [] {
      var rest := Split(s[1..], sep);
      JoinSplit(s[1..], sep);
      if s[0] == sep {
        assert Split(s, sep)[1..] == rest;
      } else if |rest| > 1 {
        assert Split(s, sep)[1..] == rest[1..];
        assert Join(rest, sep) == rest[0] + [sep] + Join(rest[1..], sep);
      }
    }
  }

  /** There is one token more than there are separators. */
  lemma {:induction false} SplitCount(s: string, sep: char)
    ensures |Split(s, sep)| == Occurrences(s, sep) + 1
    decreases |s|
  {
    if s != [] {
      SplitCount(s[1..], sep);
    }
  }

  /** No token contains the separator. */
  lemma {:induction false} SplitTokensFree(s: string, sep: char)
    ensures forall i :: 0 <= i < |Split(s, sep)| ==> sep !in Split(s, sep)[i]
    decreases |s|
  {
    if s != [] {
      var r, rest := Split(s, sep), Split(s[1..], sep);
      SplitTokensFree(s[1..], sep);
      if s[0] != sep {
        forall i | 0 <= i < |r|
          ensures sep !in r[i]
        {
          if i == 0 {
            assert r[0] == [s[0]] + rest[0];
          } else {
            assert r[i] == rest[i];
          }
        }
      }
    }
  }

  /** Splitting text that starts with a separator-free piece `a`. */
  lemma {:induction false} SplitAfterPiece(a: string, b: string, sep: char)
    requires sep !in a
    ensures Split(a + b, sep) == [a + Split(b, sep)[0]] + Split(b, sep)[1..]
    decreases |a|
  {
    if a != [] {
      SplitAfterPiece(a[1..], b, sep);
      var r, rest := Split(b, sep), Split(a[1..] + b, sep);
      assert (a + b)[1..] == a[1..] + b;
      assert (a + b)[0] == a[0] != sep;
      assert rest[0] == a[1..] + r[0] && rest[1..] == r[1..];
      assert [a[0]] + (a[1..] + r[0]) == a + r[0];
    } else {
      var r := Split(b, sep);
      assert a + b == b && a + r[0] == r[0];
      assert r == [r[0]] + r[1..];
    }
  }

  /** Splitting the join of separator-free tokens gives the tokens back. */
  lemma {:induction false} SplitJoin(tokens: seq<string>, sep: char)
    requires |tokens| >= 1
    requires forall i :: 0 <= i < |tokens| ==> sep !in tokens[i]
    ensures Split(Join(tokens, sep), sep) == tokens
    decreases |tokens|
  {
    if |tokens| == 1 {
      SplitAfterPiece(tokens[0], "", sep);
      assert tokens[0] + "" == tokens[0];
    } else {
      var tail := Join(tokens[1..], sep);
      SplitJoin(tokens[1..], sep);
      assert Join(tokens, sep) == tokens[0] + ([sep] + tail);
      SplitAfterPiece(tokens[0], [sep] + tail, sep);
      assert ([sep] + tail)[1..] == tail;
      assert Split([sep] + tail, sep) == [""] + tokens[1..];
      assert tokens[0] + "" == tokens[0];
      assert tokens == [tokens[0]] + tokens[1..];
    }
  }

  lemma SplitExamples()
    ensures Split("Action|Comedy", SEPARATOR) == ["Action", "Comedy"]
    ensures Split("Action|Comedy|", SEPARATOR) == ["Action", "Comedy", ""]
    ensures Split("", SEPARATOR) == [""]
  {
    SplitJoin(["Action", "Comedy"], SEPARATOR);
    assert Join(["Action", "Comedy"], SEPARATOR) == "Action|Comedy";
    SplitJoin(["Action", "Comedy", ""], SEPARATOR);
    assert Join(["Action", "Comedy", ""], SEPARATOR) == "Action|Comedy|";
  }

  // ---------------------------------------------------------------------------------------
  // The genre column

  /** `c` holds the tokens of `s`: their `|`-join is `s`, there is one more token than `s`
      has separators, and no token holds a separator. */
  predicate TokensOf(c: Cell, s: string) {
    && c.Some? && c.value.StrList?
    && Join(c.value.items, SEPARATOR) == s
    && |c.value.items| == Occurrences(s, SEPARATOR) + 1
    && forall j :: 0 <= j < |c.value.items| ==> SEPARATOR !in c.value.items[j]
  }

  /** After the split, every string of the genre column has become its token list, and the
      missing cells are still missing. */
  lemma GenreCellsAreTokens(t: Frame, tagColumn: string)
    requires tagColumn in t.columns && SplitGenres(t, tagColumn).Processed?
    ensures var r := SplitGenres(t, tagColumn).frame;
      forall i :: 0 <= i < |t.rows| ==>
        && (CellAt(t, i, tagColumn).None? ==> CellAt(r, i, tagColumn).None?)
        && (forall s :: CellAt(t, i, tagColumn) == Some(Str(s)) ==> TokensOf(CellAt(r, i, tagColumn), s))
  {
    forall i, s | 0 <= i < |t.rows| && CellAt(t, i, tagColumn) == Some(Str(s))
      ensures TokensOf(CellAt(SplitGenres(t, tagColumn).frame, i, tagColumn), s)
    {
      assert CellAt(t, i, tagColumn).value.s == s;
    }
  }
}
