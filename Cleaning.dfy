/**
 * The two cleaners of the preprocessing pipeline.  Both drop exact-duplicate rows, keeping
 * the first occurrence (`drop_duplicates`), then drop every row with a missing cell
 * (`dropna`); the rating cleaner afterwards removes the `timestamp` column if there is one.
 */
module Cleaning {
  import opened Tables

  const TIMESTAMP := "timestamp"

  /** `a` is `b` with some elements left out and the rest kept in order. */
  predicate SubsequenceOf<T(==)>(a: seq<T>, b: seq<T>)
    decreases |b|
  {
    if a == [] then true
    else if b == [] then false
    else
      || (a[|a| - 1] == b[|b| - 1] && SubsequenceOf(a[..|a| - 1], b[..|b| - 1]))
      || SubsequenceOf(a, b[..|b| - 1])
  }

  /** The elements of `r` appear in the order of their first occurrences in `s`. */
  predicate InFirstOccurrenceOrder<T(==)>(r: seq<T>, s: seq<T>) {
    && (forall i :: 0 <= i < |r| ==> r[i] in s)
    && forall i, j :: 0 <= i < j < |r| ==> r[i] in s && r[j] in s && IndexOf(s, r[i]) < IndexOf(s, r[j])
  }

  /** `drop_duplicates()`: a row is kept exactly when no equal row comes before it. */
  function DropDuplicates(s: seq<Row>): (r: seq<Row>)
    ensures Distinct(r)
    ensures forall x :: x in r <==> x in s
    decreases |s|
  {
    if s == [] then []
    else
      var init, last := s[..|s| - 1], s[|s| - 1];
      assert s == init + [last];
      if last in init then DropDuplicates(init) else DropDuplicates(init) + [last]
  }

  /** `dropna()`: keep the rows that have no missing cell, in order, every occurrence of
      each. */
  function DropNa(rows: seq<Row>): (r: seq<Row>)
    ensures forall x :: x in r <==> x in rows && Complete(x)
    ensures forall x :: multiset(r)[x] == if Complete(x) then multiset(rows)[x] else 0
    ensures Distinct(rows) ==> Distinct(r)
    decreases |rows|
  {
    if rows == [] then []
    else
      var init, last := rows[..|rows| - 1], rows[|rows| - 1];
      assert rows == init + [last];
      if Complete(last) then DropNa(init) + [last] else DropNa(init)
  }

  function RemoveAt<T>(s: seq<T>, k: nat): (r: seq<T>)
    requires k < |s|
    ensures |r| == |s| - 1
  {
    s[..k] + s[k + 1..]
  }

  function RemoveColumnAt(rows: seq<Row>, k: nat): seq<Row>
    requires forall i :: 0 <= i < |rows| ==> k < |rows[i]|
  {
    seq(|rows|, i requires 0 <= i < |rows| => RemoveAt(rows[i], k))
  }

  /** `df.drop(columns=[name])`; pandas raises unless `name` is a column. */
  function DropColumn(t: Frame, name: string): (r: Frame)
    requires name in t.columns
    ensures name !in r.columns
    ensures |r.columns| == |t.columns| - 1 && |r.rows| == |t.rows|
  {
    var k := IndexOf(t.columns, name);
    RemoveAtDistinct(t.columns, k);
    Table(RemoveAt(t.columns, k), RemoveColumnAt(t.rows, k))
  }

  /** The conditional drop in `clean_rating_dataset`: remove `timestamp` when it is a
      column, otherwise leave the frame alone. */
  function DropTimestamp(t: Frame): (r: Frame)
    ensures TIMESTAMP !in r.columns
    ensures forall c :: c in r.columns <==> c in t.columns && c != TIMESTAMP
    ensures TIMESTAMP !in t.columns ==> r == t
    ensures |r.rows| == |t.rows|
  {
    if TIMESTAMP in t.columns then
      DropColumnKeepsOtherNames(t, TIMESTAMP);
      DropColumn(t, TIMESTAMP)
    else t
  }

  /** `clean_rating_dataset`: deduplicate, then drop incomplete rows, then drop `timestamp`. */
  function CleanRatingDataset(t: Frame): (r: Frame)
    ensures TIMESTAMP !in r.columns
    ensures forall c :: c in r.columns <==> c in t.columns && c != TIMESTAMP
    ensures forall row :: row in r.rows ==> Complete(row)
  {
    var complete := DropNa(DropDuplicates(t.rows));
    KeepRows(t, complete);
    RemoveColumnKeepsComplete(Table(t.columns, complete));
    DropTimestamp(Table(t.columns, complete))
  }

  /** `clean_movies_dataset`: deduplicate, then drop incomplete rows.  Rows are compared by
      value here; pandas itself hashes the cells to find duplicates and raises TypeError on
      the token lists the genre splitter leaves behind, an exception nothing catches. */
  function CleanMoviesDataset(t: Frame): (r: Frame)
    ensures r.columns == t.columns
    ensures Distinct(r.rows)
    ensures forall row :: row in r.rows <==> row in t.rows && Complete(row)
  {
    var complete := DropNa(DropDuplicates(t.rows));
    KeepRows(t, complete);
    Table(t.columns, complete)
  }

  /** Rows taken from a frame fit under its columns. */
  lemma KeepRows(t: Frame, rows: seq<Row>)
    requires forall i :: 0 <= i < |rows| ==> rows[i] in t.rows
    ensures WellFormed(Table(t.columns, rows))
  {
  }

  // ---------------------------------------------------------------------------------------
  // Subsequences

  lemma {:induction false} SubsequenceReflexive<T>(s: seq<T>)
    ensures SubsequenceOf(s, s)
    decreases |s|
  {
    if s != [] {
      SubsequenceReflexive(s[..|s| - 1]);
    }
  }

  lemma {:induction false} SubsequenceMembers<T>(a: seq<T>, b: seq<T>)
    requires SubsequenceOf(a, b)
    ensures forall x :: x in a ==> x in b
    decreases |b|
  {
    if a != [] {
      var a', b' := a[..|a| - 1], b[..|b| - 1];
      assert a == a' + [a[|a| - 1]] && b == b' + [b[|b| - 1]];
      if a[|a| - 1] == b[|b| - 1] && SubsequenceOf(a', b') {
        SubsequenceMembers(a', b');
      } else {
        SubsequenceMembers(a, b');
      }
    }
  }

  lemma {:induction false} SubsequenceTransitive<T>(a: seq<T>, b: seq<T>, c: seq<T>)
    requires SubsequenceOf(a, b) && SubsequenceOf(b, c)
    ensures SubsequenceOf(a, c)
    decreases |c|
  {
    if a != [] {
      var a', b', c' := a[..|a| - 1], b[..|b| - 1], c[..|c| - 1];
      if b[|b| - 1] == c[|c| - 1] && SubsequenceOf(b', c') {
        if a[|a| - 1] == b[|b| - 1] && SubsequenceOf(a', b') {
          SubsequenceTransitive(a', b', c');
        } else {
          SubsequenceTransitive(a, b', c');
        }
      } else {
        SubsequenceTransitive(a, b, c');
      }
    }
  }

  /** Leaving elements out of a list without repeats gives a list without repeats. */
  lemma {:induction false} SubsequenceDistinct<T>(a: seq<T>, b: seq<T>)
    requires SubsequenceOf(a, b) && Distinct(b)
    ensures Distinct(a)
    decreases |b|
  {
    if a != [] {
      var a', b' := a[..|a| - 1], b[..|b| - 1];
      if a[|a| - 1] == b[|b| - 1] && SubsequenceOf(a', b') {
        SubsequenceDistinct(a', b');
        SubsequenceMembers(a', b');
        forall i, j | 0 <= i < j < |a|
          ensures a[i] != a[j]
        {
          assert a[i] == a'[i] && a'[i] in b';
          if j == |a| - 1 {
            var i' :| 0 <= i' < |b'| && b'[i'] == a[i];
            assert b[i'] == a[i] && b[|b| - 1] == a[j];
          } else {
            assert a[j] == a'[j];
          }
        }
      } else {
        SubsequenceDistinct(a, b');
      }
    }
  }

  /** Leaving elements out keeps the first-occurrence order. */
  lemma {:induction false} SubsequenceKeepsOrder<T>(a: seq<T>, b: seq<T>, s: seq<T>)
    requires SubsequenceOf(a, b) && InFirstOccurrenceOrder(b, s)
    ensures InFirstOccurrenceOrder(a, s)
    decreases |b|
  {
    SubsequenceMembers(a, b);
    if a != [] {
      var a', b' := a[..|a| - 1], b[..|b| - 1];
      assert InFirstOccurrenceOrder(b', s);
      if a[|a| - 1] == b[|b| - 1] && SubsequenceOf(a', b') {
        SubsequenceKeepsOrder(a', b', s);
        SubsequenceMembers(a', b');
        forall i, j | 0 <= i < j < |a|
          ensures a[i] in s && a[j] in s && IndexOf(s, a[i]) < IndexOf(s, a[j])
        {
          if j == |a| - 1 {
            assert a[i] == a'[i] && a'[i] in b';
            var i' :| 0 <= i' < |b'| && b'[i'] == a[i];
            assert b[i'] == a[i] && b[|b| - 1] == a[j];
          } else {
            assert a[i] == a'[i] && a[j] == a'[j];
          }
        }
      } else {
        SubsequenceKeepsOrder(a, b', s);
      }
    }
  }

  lemma {:induction false} RemoveAtIsSubsequence<T>(s: seq<T>, k: nat)
    requires k < |s|
    ensures SubsequenceOf(RemoveAt(s, k), s)
    decreases |s|
  {
    var r, s' := RemoveAt(s, k), s[..|s| - 1];
    if k == |s| - 1 {
      assert r == s';
      SubsequenceReflexive(s');
      if r != [] {
        assert SubsequenceOf(r, s');
      }
    } else {
      RemoveAtIsSubsequence(s', k);
      assert r[..|r| - 1] == RemoveAt(s', k);
      assert r[|r| - 1] == s[|s| - 1];
    }
  }

  lemma RemoveAtDistinct<T>(s: seq<T>, k: nat)
    requires k < |s| && Distinct(s)
    ensures Distinct(RemoveAt(s, k))
  {
  }

  /** Removing the same column from every row keeps a subsequence a subsequence. */
  lemma {:induction false} RemoveColumnKeepsSubsequence(a: seq<Row>, b: seq<Row>, k: nat)
    requires forall i :: 0 <= i < |b| ==> k < |b[i]|
    requires SubsequenceOf(a, b)
    ensures forall i :: 0 <= i < |a| ==> k < |a[i]|
    ensures SubsequenceOf(RemoveColumnAt(a, k), RemoveColumnAt(b, k))
    decreases |b|
  {
    SubsequenceMembers(a, b);
    forall i | 0 <= i < |a|
      ensures k < |a[i]|
    {
      assert a[i] in b;
    }
    if a != [] {
      var a', b' := a[..|a| - 1], b[..|b| - 1];
      assert RemoveColumnAt(a, k)[..|a| - 1] == RemoveColumnAt(a', k);
      assert RemoveColumnAt(b, k)[..|b| - 1] == RemoveColumnAt(b', k);
      if a[|a| - 1] == b[|b| - 1] && SubsequenceOf(a', b') {
        RemoveColumnKeepsSubsequence(a', b', k);
      } else {
        RemoveColumnKeepsSubsequence(a, b', k);
      }
    }
  }

  // ---------------------------------------------------------------------------------------
  // Deduplication and missing-value removal

  lemma {:induction false} DropDuplicatesIsSubsequence(s: seq<Row>)
    ensures SubsequenceOf(DropDuplicates(s), s)
    decreases |s|
  {
    if s != [] {
      var init := s[..|s| - 1];
      DropDuplicatesIsSubsequence(init);
      var r := DropDuplicates(s);
      if s[|s| - 1] !in init {
        assert r[..|r| - 1] == DropDuplicates(init);
      } else if r != [] {
        assert SubsequenceOf(r, init);
      }
    }
  }

  lemma {:induction false} DropNaIsSubsequence(rows: seq<Row>)
    ensures SubsequenceOf(DropNa(rows), rows)
    decreases |rows|
  {
    if rows != [] {
      var init := rows[..|rows| - 1];
      DropNaIsSubsequence(init);
      var r := DropNa(rows);
      if Complete(rows[|rows| - 1]) {
        assert r[..|r| - 1] == DropNa(init);
      } else if r != [] {
        assert SubsequenceOf(r, init);
      }
    }
  }

  lemma IndexOfExtend<T>(p: seq<T>, x: T, y: T)
    requires y in p
    ensures IndexOf(p + [x], y) == IndexOf(p, y)
  {
    var s := p + [x];
    var m, m' := IndexOf(p, y), IndexOf(s, y);
    forall j | 0 <= j < m'
      ensures s[j] != y
    {
      assert s[..m'][j] == s[j];
    }
    forall j | 0 <= j < m
      ensures p[j] != y
    {
      assert p[..m][j] == p[j];
    }
    assert s[m] == y;
  }

  /** Of each group of equal rows, the one kept is the first. */
  lemma {:induction false} DropDuplicatesKeepsFirst(s: seq<Row>)
    ensures InFirstOccurrenceOrder(DropDuplicates(s), s)
    decreases |s|
  {
    if s != [] {
      var p, x := s[..|s| - 1], s[|s| - 1];
      assert s == p + [x];
      var d, r := DropDuplicates(p), DropDuplicates(s);
      DropDuplicatesKeepsFirst(p);
      forall y | y in p
        ensures IndexOf(s, y) == IndexOf(p, y)
      {
        IndexOfExtend(p, x, y);
      }
      if x !in p {
        assert r == d + [x];
        assert IndexOf(s, x) == |p| by {
          assert s[..|p|] == p;
        }
        forall i, j | 0 <= i < j < |r|
          ensures r[i] in s && r[j] in s && IndexOf(s, r[i]) < IndexOf(s, r[j])
        {
          assert r[i] == d[i] && d[i] in p;
          if j < |d| {
            assert r[j] == d[j];
          }
        }
      }
    }
  }

  lemma {:induction false} DropDuplicatesOfDistinct(s: seq<Row>)
    requires Distinct(s)
    ensures DropDuplicates(s) == s
    decreases |s|
  {
    if s != [] {
      var p := s[..|s| - 1];
      DropDuplicatesOfDistinct(p);
      assert s == p + [s[|s| - 1]];
    }
  }

  lemma {:induction false} DropNaOfComplete(rows: seq<Row>)
    requires forall row :: row in rows ==> Complete(row)
    ensures DropNa(rows) == rows
    decreases |rows|
  {
    if rows != [] {
      var p, last := rows[..|rows| - 1], rows[|rows| - 1];
      assert rows == p + [last] && last in rows;
      DropNaOfComplete(p);
      assert DropNa(rows) == DropNa(p) + [last];
    }
  }

  // ---------------------------------------------------------------------------------------
  // Column removal

  /** Removing a column keeps every other column name, in order. */
  lemma DropColumnKeepsOtherNames(t: Frame, name: string)
    requires name in t.columns
    ensures var r := DropColumn(t, name);
      && SubsequenceOf(r.columns, t.columns)
      && (forall c :: c in r.columns <==> c in t.columns && c != name)
  {
    var r, k := DropColumn(t, name), IndexOf(t.columns, name);
    RemoveAtIsSubsequence(t.columns, k);
    SubsequenceMembers(r.columns, t.columns);
    forall c | c in t.columns && c != name
      ensures c in r.columns
    {
      var m := IndexOf(t.columns, c);
      if m < k { assert r.columns[m] == c; } else { assert r.columns[m - 1] == c; }
    }
  }

  /** Removing a column keeps the value of every other column in every row. */
  lemma DropColumnKeepsOtherValues(t: Frame, name: string)
    requires name in t.columns
    ensures var r := DropColumn(t, name);
      forall i, c :: 0 <= i < |r.rows| && c in r.columns ==> c in t.columns && CellAt(r, i, c) == CellAt(t, i, c)
  {
  }

  lemma RemoveColumnKeepsComplete(t: Frame)
    requires forall row :: row in t.rows ==> Complete(row)
    ensures forall row :: row in DropTimestamp(t).rows ==> Complete(row)
  {
    if TIMESTAMP in t.columns {
      var k := IndexOf(t.columns, TIMESTAMP);
      forall row | row in DropTimestamp(t).rows
        ensures Complete(row)
      {
        var i :| 0 <= i < |t.rows| && DropTimestamp(t).rows[i] == row;
        assert t.rows[i] in t.rows;
        RemoveAtIsSubsequence(t.rows[i], k);
        SubsequenceMembers(row, t.rows[i]);
      }
    }
  }

  // ---------------------------------------------------------------------------------------
  // Properties of the cleaners

  /** Every row the rating cleaner returns is an input row with `timestamp` removed, and
      the rows keep their relative order. */
  lemma CleanRatingRowsComeFromInput(t: Frame)
    ensures SubsequenceOf(CleanRatingDataset(t).rows, DropTimestamp(t).rows)
  {
    var complete := DropNa(DropDuplicates(t.rows));
    DropDuplicatesIsSubsequence(t.rows);
    DropNaIsSubsequence(DropDuplicates(t.rows));
    SubsequenceTransitive(complete, DropDuplicates(t.rows), t.rows);
    if TIMESTAMP in t.columns {
      var k := IndexOf(t.columns, TIMESTAMP);
      RemoveColumnKeepsSubsequence(complete, t.rows, k);
    }
  }

  /** The movie cleaner keeps, of each group of equal complete rows, the first one, and
      keeps them in the order they first appear. */
  lemma CleanMoviesKeepsFirstOccurrences(t: Frame)
    ensures SubsequenceOf(CleanMoviesDataset(t).rows, t.rows)
    ensures InFirstOccurrenceOrder(CleanMoviesDataset(t).rows, t.rows)
  {
    var d := DropDuplicates(t.rows);
    DropDuplicatesIsSubsequence(t.rows);
    DropNaIsSubsequence(d);
    SubsequenceTransitive(DropNa(d), d, t.rows);
    DropDuplicatesKeepsFirst(t.rows);
    SubsequenceKeepsOrder(DropNa(d), d, t.rows);
  }

  lemma CleanMoviesIdempotent(t: Frame)
    ensures CleanMoviesDataset(CleanMoviesDataset(t)) == CleanMoviesDataset(t)
  {
    var r := CleanMoviesDataset(t);
    DropDuplicatesOfDistinct(r.rows);
    DropNaOfComplete(r.rows);
  }

  /** Without a `timestamp` column, cleaning ratings twice is cleaning them once. */
  lemma CleanRatingIdempotentWithoutTimestamp(t: Frame)
    requires TIMESTAMP !in t.columns
    ensures CleanRatingDataset(CleanRatingDataset(t)) == CleanRatingDataset(t)
  {
    assert CleanRatingDataset(t) == CleanMoviesDataset(t);
    CleanMoviesIdempotent(t);
  }

  lemma DropDuplicatesOfTwo(a: Row, b: Row)
    ensures DropDuplicates([a, b]) == if a == b then [a] else [a, b]
  {
    assert [a, b][..1] == [a];
    assert DropDuplicates([a]) == [a] by {
      assert [a][..0] == [];
    }
  }

  /** Deduplication runs before `timestamp` is dropped: two complete ratings that differ
      only in their timestamp both survive and come out as equal rows, which a second
      cleaning then merges. */
  lemma CleanRatingKeepsRowsDifferingInTimestamp(t: Frame)
    requires TIMESTAMP in t.columns && |t.rows| == 2
    requires t.rows[0] != t.rows[1] && Complete(t.rows[0]) && Complete(t.rows[1])
    requires var k := IndexOf(t.columns, TIMESTAMP); RemoveAt(t.rows[0], k) == RemoveAt(t.rows[1], k)
    ensures var once := RemoveAt(t.rows[0], IndexOf(t.columns, TIMESTAMP));
      && CleanRatingDataset(t).rows == [once, once]
      && CleanRatingDataset(CleanRatingDataset(t)).rows == [once]
  {
    var k := IndexOf(t.columns, TIMESTAMP);
    var a, b := t.rows[0], t.rows[1];
    assert t.rows == [a, b];
    var once := RemoveAt(a, k);
    DropDuplicatesOfTwo(a, b);
    DropNaOfComplete([a, b]);
    var u := CleanRatingDataset(t);
    assert u.rows == RemoveColumnAt([a, b], k);
    assert u.rows == [once, once];
    DropDuplicatesOfTwo(once, once);
    DropNaOfComplete([once]);
  }

  /** The ratings (1, 10, 4.0, 1000) and (1, 10, 4.0, 2000) both come out, as two equal
      rows (1, 10, 4.0). */
  lemma TwoTimestampsTwoRows()
    ensures var once := [Some(Int(1)), Some(Int(10)), Some(Real(4.0))];
      var t := Table(["userId", "movieId", "rating", "timestamp"],
                     [once + [Some(Int(1000))], once + [Some(Int(2000))]]);
      WellFormed(t) && CleanRatingDataset(t).rows == [once, once]
  {
    var once := [Some(Int(1)), Some(Int(10)), Some(Real(4.0))];
    var cols := ["userId", "movieId", "rating", "timestamp"];
    var a, b := once + [Some(Int(1000))], once + [Some(Int(2000))];
    assert Distinct(cols) by {
      assert cols[0][0] == 'u' && cols[1][0] == 'm' && cols[2][0] == 'r' && cols[3][0] == 't';
    }
    var t: Frame := Table(cols, [a, b]);
    assert IndexOf(cols, TIMESTAMP) == 3 by {
      IndexOfDistinct(cols, 3);
    }
    assert RemoveAt(a, 3) == once && RemoveAt(b, 3) == once;
    assert a != b by { assert a[3] != b[3]; }
    CleanRatingKeepsRowsDifferingInTimestamp(t);
  }

  /** The rating cleaner is the movie cleaner followed by dropping `timestamp`, so it too
      keeps exactly the first occurrence of every complete input row. */
  lemma CleanRatingIsCleanMoviesWithoutTimestamp(t: Frame)
    ensures CleanRatingDataset(t) == DropTimestamp(CleanMoviesDataset(t))
  {
  }

  /** Every complete input row comes out of the rating cleaner, `timestamp` removed. */
  lemma CleanRatingKeepsCompleteRows(t: Frame)
    ensures forall i :: 0 <= i < |t.rows| && Complete(t.rows[i]) ==>
      DropTimestamp(t).rows[i] in CleanRatingDataset(t).rows
  {
    var c := CleanMoviesDataset(t);
    CleanRatingIsCleanMoviesWithoutTimestamp(t);
    forall i | 0 <= i < |t.rows| && Complete(t.rows[i])
      ensures DropTimestamp(t).rows[i] in CleanRatingDataset(t).rows
    {
      assert t.rows[i] in c.rows;
      var p :| 0 <= p < |c.rows| && c.rows[p] == t.rows[i];
      assert DropTimestamp(c).rows[p] == DropTimestamp(t).rows[i];
    }
  }

  /** In any frame, two different complete ratings that agree everywhere but in `timestamp`
      both survive deduplication, and come out as the same row at two positions. */
  lemma CleanRatingKeepsTimestampTwins(t: Frame, i: nat, j: nat)
    requires TIMESTAMP in t.columns && i < j < |t.rows|
    requires t.rows[i] != t.rows[j] && Complete(t.rows[i]) && Complete(t.rows[j])
    requires var k := IndexOf(t.columns, TIMESTAMP); RemoveAt(t.rows[i], k) == RemoveAt(t.rows[j], k)
    ensures var r := CleanRatingDataset(t).rows;
      exists p, q :: 0 <= p < q < |r| && r[p] == r[q] == RemoveAt(t.rows[i], IndexOf(t.columns, TIMESTAMP))
  {
    var k := IndexOf(t.columns, TIMESTAMP);
    var c := CleanMoviesDataset(t);
    CleanRatingIsCleanMoviesWithoutTimestamp(t);
    var r := CleanRatingDataset(t).rows;
    assert t.rows[i] in c.rows && t.rows[j] in c.rows;
    var p :| 0 <= p < |c.rows| && c.rows[p] == t.rows[i];
    var q :| 0 <= q < |c.rows| && c.rows[q] == t.rows[j];
    assert r[p] == RemoveAt(t.rows[i], k) && r[q] == RemoveAt(t.rows[j], k);
    if p < q {
      assert 0 <= p < q < |r| && r[p] == r[q];
    } else {
      assert 0 <= q < p < |r| && r[q] == r[p];
    }
  }
}
