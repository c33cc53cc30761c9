/**
 * `filter_df_on_keyword`: keeps, in order, the rows of a data frame whose
 * cell in column `column` contains `keyword`, ignoring case. A row whose cell
 * is null is dropped (`na=False`). A column the frame does not have raises
 * pandas' `KeyError`.
 *
 * The keyword is matched as a literal substring. Case is ignored by ASCII
 * lower-casing of both sides.
 */
module KeywordFilter {
  import opened Wrappers
  import opened Text

  /** One data frame row: column name to cell, `None` for a null cell. */
  type Row = map<string, Option<string>>

  /** A data frame: its column names and its rows in index order. */
  datatype Frame = Frame(columns: set<string>, rows: seq<Row>)

  datatype FilterError = KeyError(column: string)

  /** ASCII lower-casing of one character. */
  function Lower(c: char): char
  {
    if 'A' <= c <= 'Z' then (c as int + 32) as char else c
  }

  function LowerString(s: string): (r: string)
    ensures |r| == |s| && forall j :: 0 <= j < |s| ==> r[j] == Lower(s[j])
  {
    seq(|s|, j requires 0 <= j < |s| => Lower(s[j]))
  }

  /** `keyword` occurs in `s` at index `i` when case is ignored. */
  ghost predicate MatchesIgnoringCaseAt(s: string, keyword: string, i: nat)
  {
    i + |keyword| <= |s|
    && forall t :: 0 <= t < |keyword| ==> Lower(s[i + t]) == Lower(keyword[t])
  }

  /** `str.contains(keyword, case=False)` on one non-null cell. */
  predicate ContainsIgnoringCase(s: string, keyword: string)
  {
    FindFrom(LowerString(s), LowerString(keyword), 0).Some?
  }

  /** The cell of `row` in column `column`; a row without that key holds null. */
  function Cell(row: Row, column: string): Option<string>
  {
    if column in row then row[column] else None
  }

  /** The boolean mask of the source for one row, with null read as `False`. */
  predicate Keep(row: Row, keyword: string, column: string)
  {
    match Cell(row, column)
    case None => false
    case Some(s) => ContainsIgnoringCase(s, keyword)
  }

  /** The mask `df[column].str.contains(keyword, case=False, na=False)`. */
  function Mask(rows: seq<Row>, keyword: string, column: string): (m: seq<bool>)
    ensures |m| == |rows|
  {
    seq(|rows|, j requires 0 <= j < |rows| => Keep(rows[j], keyword, column))
  }

  /** Boolean indexing `xs[mask]`: the elements whose mask entry is true, in order. */
  function Select<T>(xs: seq<T>, mask: seq<bool>): (r: seq<T>)
    requires |mask| == |xs|
    ensures |r| <= |xs|
  {
    if xs == [] then []
    else
      var rest := Select(xs[1..], mask[1..]);
      if mask[0] then [xs[0]] + rest else rest
  }

  /** `filter_df_on_keyword(df, keyword, column)`. */
  function FilterOnKeyword(df: Frame, keyword: string, column: string := "Body"): (r: Result<Frame, FilterError>)
    ensures r.Failure? <==> column !in df.columns
    ensures r.Failure? ==> r.error == KeyError(column)
    ensures r.Success? ==> r.value.columns == df.columns && |r.value.rows| <= |df.rows|
  {
    if column !in df.columns then Failure(KeyError(column))
    else Success(Frame(df.columns, Select(df.rows, Mask(df.rows, keyword, column))))
  }

  /** The literal search agrees with the character-by-character definition. */
  lemma ContainsIgnoringCaseMeaning(s: string, keyword: string)
    ensures ContainsIgnoringCase(s, keyword) <==> exists i: nat :: MatchesIgnoringCaseAt(s, keyword, i)
  {
    var ls, lk := LowerString(s), LowerString(keyword);
    forall i: nat
      ensures OccursAt(ls, lk, i) <==> MatchesIgnoringCaseAt(s, keyword, i)
    {
      if i + |keyword| <= |s| {
        if MatchesIgnoringCaseAt(s, keyword, i) {
          MatchAt(ls, lk, i);
        }
        if OccursAt(ls, lk, i) {
          var w := ls[i..i + |lk|];
          assert forall t :: 0 <= t < |lk| ==> w[t] == ls[i + t];
        }
      }
    }
    FindFromNoneIffAbsent(ls, lk, 0);
    var found := FindFrom(ls, lk, 0);
    if found.Some? {
      assert MatchesIgnoringCaseAt(s, keyword, found.value);
    }
  }

  /** Lower-casing twice is lower-casing once. */
  lemma LowerStringIdempotent(s: string)
    ensures LowerString(LowerString(s)) == LowerString(s)
  {
  }

  /**
   * With `case=False` the case of neither side matters: lower-casing the cell
   * or the keyword beforehand gives the same answer.
   */
  lemma ContainsIgnoresCase(s: string, keyword: string)
    ensures ContainsIgnoringCase(LowerString(s), keyword) == ContainsIgnoringCase(s, keyword)
    ensures ContainsIgnoringCase(s, LowerString(keyword)) == ContainsIgnoringCase(s, keyword)
  {
    LowerStringIdempotent(s);
    LowerStringIdempotent(keyword);
  }

  /** The positions whose mask entry is true, in increasing order. */
  function Positions(mask: seq<bool>): (idx: seq<nat>)
    ensures forall i :: 0 <= i < |idx| ==> idx[i] < |mask|
    ensures forall i, j :: 0 <= i < j < |idx| ==> idx[i] < idx[j]
  {
    if mask == [] then []
    else
      var shifted := Shifted(Positions(mask[1..]));
      if mask[0] then [0] + shifted else shifted
  }

  /** Every position moved one place on, as when an entry is put in front. */
  function Shifted(positions: seq<nat>): (r: seq<nat>)
    ensures |r| == |positions| && forall i :: 0 <= i < |r| ==> r[i] == positions[i] + 1
  {
    seq(|positions|, i requires 0 <= i < |positions| => positions[i] + 1)
  }

  /** A position is listed exactly when its mask entry is true. */
  lemma {:induction false} PositionsListMaskedEntries(mask: seq<bool>)
    ensures forall j :: 0 <= j < |mask| ==> (mask[j] <==> j in Positions(mask))
    decreases |mask|
  {
    if mask != [] {
      var tail := Positions(mask[1..]);
      PositionsListMaskedEntries(mask[1..]);
      var shifted := Shifted(tail);
      forall j | 1 <= j < |mask|
        ensures mask[j] <==> j in shifted
      {
        assert mask[j] == mask[1..][j - 1];
        if j - 1 in tail {
          var i :| 0 <= i < |tail| && tail[i] == j - 1;
          assert shifted[i] == j;
        }
      }
    }
  }

  /**
   * Boolean indexing keeps exactly the elements at the masked positions, in
   * their original order.
   */
  lemma {:induction false} SelectAtPositions<T>(xs: seq<T>, mask: seq<bool>)
    requires |mask| == |xs|
    ensures |Positions(mask)| == |Select(xs, mask)|
    ensures forall i :: 0 <= i < |Positions(mask)| ==> Select(xs, mask)[i] == xs[Positions(mask)[i]]
    decreases |xs|
  {
    if xs != [] {
      var rest, tail := Select(xs[1..], mask[1..]), Positions(mask[1..]);
      SelectAtPositions(xs[1..], mask[1..]);
      var r, idx := Select(xs, mask), Positions(mask);
      var d := if mask[0] then 1 else 0;
      assert |idx| == |tail| + d && |r| == |rest| + d;
      forall i | 0 <= i < |idx|
        ensures r[i] == xs[idx[i]]
      {
        if i >= d {
          assert r[i] == rest[i - d] && idx[i] == tail[i - d] + 1;
          assert rest[i - d] == xs[1..][tail[i - d]];
        }
      }
    }
  }

  /**
   * The frame `filter_df_on_keyword` returns holds exactly the rows whose cell
   * contains the keyword, in the order of the input frame.
   */
  lemma FilterKeepsExactlyMatchingRows(df: Frame, keyword: string, column: string)
    requires column in df.columns
    ensures var out := FilterOnKeyword(df, keyword, column).value.rows;
      var idx := Positions(Mask(df.rows, keyword, column));
      && |idx| == |out|
      && (forall i, j :: 0 <= i < j < |idx| ==> idx[i] < idx[j])
      && (forall i :: 0 <= i < |idx| ==> idx[i] < |df.rows| && out[i] == df.rows[idx[i]])
      && (forall j :: 0 <= j < |df.rows| ==> (Keep(df.rows[j], keyword, column) <==> j in idx))
  {
    var mask := Mask(df.rows, keyword, column);
    SelectAtPositions(df.rows, mask);
    PositionsListMaskedEntries(mask);
  }

  /** Selecting from a concatenation selects from each part: order is kept. */
  lemma {:induction false} SelectDistributes<T>(a: seq<T>, ma: seq<bool>, b: seq<T>, mb: seq<bool>)
    requires |ma| == |a| && |mb| == |b|
    ensures Select(a + b, ma + mb) == Select(a, ma) + Select(b, mb)
    decreases |a|
  {
    if a == [] {
      assert a + b == b && ma + mb == mb;
    } else {
      assert (a + b)[1..] == a[1..] + b && (ma + mb)[1..] == ma[1..] + mb;
      SelectDistributes(a[1..], ma[1..], b, mb);
    }
  }

  /** Filtering the rows of two frames put together filters each of them. */
  lemma FilterDistributes(a: seq<Row>, b: seq<Row>, keyword: string, column: string)
    ensures Select(a + b, Mask(a + b, keyword, column))
         == Select(a, Mask(a, keyword, column)) + Select(b, Mask(b, keyword, column))
  {
    assert Mask(a + b, keyword, column) == Mask(a, keyword, column) + Mask(b, keyword, column);
    SelectDistributes(a, Mask(a, keyword, column), b, Mask(b, keyword, column));
  }

  /** An all-true mask selects everything. */
  lemma {:induction false} SelectAll<T>(xs: seq<T>, mask: seq<bool>)
    requires |mask| == |xs| && forall j :: 0 <= j < |mask| ==> mask[j]
    ensures Select(xs, mask) == xs
    decreases |xs|
  {
    if xs != [] {
      SelectAll(xs[1..], mask[1..]);
    }
  }

  /** Filtering again with the same keyword and column changes nothing. */
  lemma FilterOnKeywordIdempotent(df: Frame, keyword: string, column: string)
    requires column in df.columns
    ensures FilterOnKeyword(FilterOnKeyword(df, keyword, column).value, keyword, column)
         == FilterOnKeyword(df, keyword, column)
  {
    var out := FilterOnKeyword(df, keyword, column).value.rows;
    var idx := Positions(Mask(df.rows, keyword, column));
    FilterKeepsExactlyMatchingRows(df, keyword, column);
    var mask := Mask(out, keyword, column);
    forall j | 0 <= j < |mask|
      ensures mask[j]
    {
      assert out[j] == df.rows[idx[j]];
    }
    SelectAll(out, mask);
  }
}
