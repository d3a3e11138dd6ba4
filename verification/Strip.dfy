/** Column trimming (`strip_col`): remove leading and trailing whitespace
    from every cell of the named text columns of a table, in place. */
module Strip {

  /** Python's `str.isspace` on one character: the characters `str.strip()`
      removes when called without arguments. */
  predicate IsSpace(c: char)
  {
    var n := c as int;
    || 0x09 <= n <= 0x0D
    || 0x1C <= n <= 0x20
    || n == 0x85 || n == 0xA0 || n == 0x1680
    || 0x2000 <= n <= 0x200A
    || n == 0x2028 || n == 0x2029 || n == 0x202F || n == 0x205F || n == 0x3000
  }

  /** The first position at or after `i` that does not hold whitespace
      (`|s|` when there is none): the left end of the stripped text. */
  function TextStart(s: string, i: nat): (lo: nat)
    requires i <= |s|
    decreases |s| - i
    ensures i <= lo <= |s|
    ensures forall k :: i <= k < lo ==> IsSpace(s[k])
    ensures lo == |s| || !IsSpace(s[lo])
  {
    if i < |s| && IsSpace(s[i]) then TextStart(s, i + 1) else i
  }

  /** The least position `hi`, between `lo` and `j`, with only whitespace
      from `hi` up to `j`: the right end of the stripped text. */
  function TextEnd(s: string, lo: nat, j: nat): (hi: nat)
    requires lo <= j <= |s|
    decreases j
    ensures lo <= hi <= j
    ensures forall k :: hi <= k < j ==> IsSpace(s[k])
    ensures hi == lo || !IsSpace(s[hi - 1])
  {
    if j > lo && IsSpace(s[j - 1]) then TextEnd(s, lo, j - 1) else j
  }

  /** `s.strip()`: the contiguous part of `s` left after removing the
      whitespace at both ends. */
  function Strip(s: string): (r: string)
    ensures var lo := TextStart(s, 0);
            var hi := TextEnd(s, lo, |s|);
            && r == s[lo..hi]
            && (forall k :: 0 <= k < lo ==> IsSpace(s[k]))
            && (forall k :: hi <= k < |s| ==> IsSpace(s[k]))
    ensures r == [] || (!IsSpace(r[0]) && !IsSpace(r[|r| - 1]))
  {
    var lo := TextStart(s, 0);
    var hi := TextEnd(s, lo, |s|);
    s[lo..hi]
  }

  /** A string is left unchanged by `Strip` exactly when it neither starts
      nor ends with whitespace. */
  lemma {:induction false} StripFixedPoint(s: string)
    ensures Strip(s) == s <==> s == [] || (!IsSpace(s[0]) && !IsSpace(s[|s| - 1]))
  {
    if s != [] && !IsSpace(s[0]) && !IsSpace(s[|s| - 1]) {
      assert TextStart(s, 0) == 0;
      assert TextEnd(s, 0, |s|) == |s|;
      assert s[0..|s|] == s;
    }
  }

  /** Stripping twice is stripping once. */
  lemma {:induction false} StripIdempotent(s: string)
    ensures Strip(Strip(s)) == Strip(s)
  {
    StripFixedPoint(Strip(s));
  }

  /** A string of whitespace only strips to the empty string. */
  lemma {:induction false} StripAllSpace(s: string)
    requires forall k :: 0 <= k < |s| ==> IsSpace(s[k])
    ensures Strip(s) == []
  {
  }

  /** Every cell of a column, stripped. */
  function StripEach(col: seq<string>): (r: seq<string>)
  {
    seq(|col|, i requires 0 <= i < |col| => Strip(col[i]))
  }

  /** The cell contents of a table after trimming the columns `cols`:
      the same columns and row counts, the named columns stripped cell by
      cell and every other column as it was. */
  function StripColumns(m: map<string, seq<string>>, cols: set<string>): (r: map<string, seq<string>>)
  {
    map c | c in m :: if c in cols then StripEach(m[c]) else m[c]
  }

  /** Trimming keeps the column set and every column's length, alters no
      column outside `cols`, and leaves every cell of a named column free of
      whitespace at both ends. */
  lemma StripColumnsShape(m: map<string, seq<string>>, cols: set<string>, c: string, i: int)
    requires c in m && 0 <= i < |m[c]|
    ensures var r := StripColumns(m, cols);
            && r.Keys == m.Keys
            && |r[c]| == |m[c]|
            && (c !in cols ==> r[c] == m[c])
            && (c in cols ==> r[c][i] == Strip(m[c][i]))
            && (c in cols ==> r[c][i] == [] || (!IsSpace(r[c][i][0]) && !IsSpace(r[c][i][|r[c][i]| - 1])))
  {
  }

  /** Trimming the same columns twice is trimming them once. */
  lemma {:induction false} StripColumnsIdempotent(m: map<string, seq<string>>, cols: set<string>)
    ensures StripColumns(StripColumns(m, cols), cols) == StripColumns(m, cols)
  {
    var once := StripColumns(m, cols);
    forall c | c in m && c in cols
      ensures StripEach(once[c]) == once[c]
    {
      forall i | 0 <= i < |once[c]|
        ensures Strip(once[c][i]) == once[c][i]
      {
        StripIdempotent(m[c][i]);
      }
    }
  }

  /** Trimming columns one group after another is trimming their union. */
  lemma {:induction false} StripColumnsUnion(m: map<string, seq<string>>, a: set<string>, b: set<string>)
    ensures StripColumns(StripColumns(m, a), b) == StripColumns(m, a + b)
  {
    var once := StripColumns(m, a);
    forall c | c in m && c in a && c in b
      ensures StripEach(once[c]) == once[c]
    {
      forall i | 0 <= i < |once[c]|
        ensures Strip(once[c][i]) == once[c][i]
      {
        StripIdempotent(m[c][i]);
      }
    }
  }

  /** The set of names listed in `cols`. */
  function Names(cols: seq<string>): set<string>
    decreases |cols|
  {
    if cols == [] then {} else Names(cols[..|cols| - 1]) + {cols[|cols| - 1]}
  }

  lemma {:induction false} NamesOf(cols: seq<string>)
    decreases |cols|
    ensures Names(cols) == set c | c in cols
  {
    if cols != [] {
      NamesOf(cols[..|cols| - 1]);
      assert cols == cols[..|cols| - 1] + [cols[|cols| - 1]];
    }
  }

  /** A table of text columns, each column an array of cells, all of the
      same length; distinct column names hold distinct arrays. */
  class Frame {
    var columns: map<string, array<string>>
    var rows: nat

    ghost predicate Valid()
      reads this, columns.Values
    {
      && (forall c :: c in columns ==> columns[c].Length == rows)
      && (forall c, d :: c in columns && d in columns && c != d ==> columns[c] != columns[d])
    }

    /** The cell contents, column by column. */
    ghost function Contents(): (m: map<string, seq<string>>)
      reads this, columns.Values
      requires Valid()
    {
      map c | c in columns :: columns[c][..]
    }

    /** `.loc[:, c] = df[c].str.strip()`: strips every cell of column `c`
        in place; the other columns share no array with it and keep their
        cells. */
    method StripColumn(c: string)
      requires Valid() && c in columns
      modifies columns[c]
      ensures Valid()
      ensures Contents() == StripColumns(old(Contents()), {c})
    {
      var a := columns[c];
      forall i | 0 <= i < a.Length {
        a[i] := Strip(a[i]);
      }
      assert a[..] == StripEach(old(a[..]));
      assert forall d :: d in columns && d != c ==> columns[d][..] == old(columns[d][..]);
    }
  }

  /** `strip_col(_df, cols)`: strips the named columns of `df` in place and
      returns the same table. */
  method StripCol(df: Frame, cols: seq<string>) returns (same: Frame)
    requires df.Valid()
    requires forall c :: c in cols ==> c in df.columns
    modifies df.columns.Values
    ensures same == df
    ensures df.columns == old(df.columns) && df.rows == old(df.rows)
    ensures df.Valid()
    ensures df.Contents() == StripColumns(old(df.Contents()), set c | c in cols)
  {
    ghost var original := df.Contents();
    ghost var done: set<string> := {};
    var n := 0;
    while n < |cols|
      invariant 0 <= n <= |cols|
      invariant done == Names(cols[..n])
      invariant df.Valid()
      invariant df.Contents() == StripColumns(original, done)
    {
      var c := cols[n];
      ghost var before := df.Contents();
      df.StripColumn(c);
      assert df.Contents() == StripColumns(before, {c});
      StripColumnsUnion(original, done, {c});
      assert cols[..n + 1][..n] == cols[..n];
      done := done + {c};
      n := n + 1;
    }
    assert cols[..n] == cols;
    NamesOf(cols);
    same := df;
  }
}
