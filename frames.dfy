/**
 * The pandas DataFrame operations the roster pipeline uses, on a value model
 * of a frame: `pd.concat` (alignment by column label), `dropna(how='all')`,
 * `rename(columns=...)`, `df[col] = None` and `drop_duplicates()`.
 * Row positions stand for the frame's index.
 */
module Frames {
  import opened Options

  /** A cell: a string, or null (None/NaN). */
  type Cell = Option<string>
  type Row = seq<Cell>

  /** A frame: its column labels, in order, and its rows. */
  datatype Table = Table(header: seq<string>, rows: seq<Row>)

  /** Every row has one cell per column. */
  predicate Rectangular(t: Table)
  {
    forall i | 0 <= i < |t.rows| :: |t.rows[i]| == |t.header|
  }

  predicate AllRectangular(tables: seq<Table>)
  {
    forall p | 0 <= p < |tables| :: Rectangular(tables[p])
  }

  predicate AllWellFormed(tables: seq<Table>)
  {
    forall p | 0 <= p < |tables| :: WellFormed(tables[p])
  }

  predicate Distinct<T(==)>(s: seq<T>)
  {
    forall i, j | 0 <= i < j < |s| :: s[i] != s[j]
  }

  /** A frame as extracted from the document: rectangular, and no label used twice. */
  predicate WellFormed(t: Table)
  {
    Rectangular(t) && Distinct(t.header)
  }

  /** The first position of x in s. */
  function IndexOf<T(==)>(s: seq<T>, x: T): (i: nat)
    requires x in s
    ensures i < |s| && s[i] == x && x !in s[..i]
  {
    if s[0] == x then 0
    else
      var k := IndexOf(s[1..], x);
      assert s[..k + 1] == [s[0]] + s[1..][..k];
      k + 1
  }

  lemma IndexOfDistinct<T>(s: seq<T>, j: nat)
    requires Distinct(s) && j < |s|
    ensures IndexOf(s, s[j]) == j
  {
  }

  lemma IndexOfAppend<T>(s: seq<T>, y: T, x: T)
    requires x in s
    ensures IndexOf(s + [y], x) == IndexOf(s, x)
  {
    var i := IndexOf(s, x);
    assert (s + [y])[..i] == s[..i];
    IndexOfFirst(s + [y], x, i);
  }

  /** Any position of x that nothing before matches is x's first position. */
  lemma IndexOfFirst<T>(s: seq<T>, x: T, i: nat)
    requires i < |s| && s[i] == x && x !in s[..i]
    ensures IndexOf(s, x) == i
  {
  }

  /** The number of times x occurs in s. */
  function Occurrences<T(==)>(s: seq<T>, x: T): (n: nat)
    ensures n == 0 <==> x !in s
    ensures n <= |s|
  {
    if |s| == 0 then 0
    else (if s[0] == x then 1 else 0) + Occurrences(s[1..], x)
  }

  // ---------------------------------------------------------------------
  // dropna(how='all')

  /** Every cell of the row is null (a row of no cells counts as all-null, as in pandas). */
  predicate AllNull(r: Row)
  {
    forall c | c in r :: c.None?
  }

  /** The rows that have at least one non-null cell, in their original order. */
  function NonNullRows(rows: seq<Row>): (kept: seq<Row>)
    ensures forall r | r in kept :: r in rows && !AllNull(r)
    ensures forall r | r in rows && !AllNull(r) :: r in kept
    ensures |kept| <= |rows|
  {
    if |rows| == 0 then []
    else if AllNull(rows[0]) then NonNullRows(rows[1..])
    else [rows[0]] + NonNullRows(rows[1..])
  }

  /** dropna works row by row: the kept rows of a concatenation are the kept rows of each part, in order. */
  lemma {:induction false} NonNullRowsAppend(a: seq<Row>, b: seq<Row>)
    ensures NonNullRows(a + b) == NonNullRows(a) + NonNullRows(b)
    decreases |a|
  {
    if |a| == 0 {
      assert a + b == b;
    } else {
      assert (a + b)[0] == a[0];
      assert (a + b)[1..] == a[1..] + b;
      NonNullRowsAppend(a[1..], b);
    }
  }

  /** dropna keeps repeats: a row with a value occurs as often after it as before. */
  lemma {:induction false} NonNullRowsOccurrences(rows: seq<Row>, r: Row)
    requires !AllNull(r)
    ensures Occurrences(NonNullRows(rows), r) == Occurrences(rows, r)
    decreases |rows|
  {
    if |rows| > 0 {
      NonNullRowsOccurrences(rows[1..], r);
      if !AllNull(rows[0]) {
        var kept := [rows[0]] + NonNullRows(rows[1..]);
        assert kept[0] == rows[0] && kept[1..] == NonNullRows(rows[1..]);
      }
    }
  }

  /** `df.dropna(how='all')` */
  function DropAllNullRows(t: Table): (r: Table)
    ensures r.header == t.header
    ensures Rectangular(t) ==> Rectangular(r)
    ensures forall row | row in r.rows :: !AllNull(row)
  {
    NonNullRowsWidth(t.rows, |t.header|);
    Table(t.header, NonNullRows(t.rows))
  }

  lemma {:induction false} NonNullRowsWidth(rows: seq<Row>, n: nat)
    ensures (forall i | 0 <= i < |rows| :: |rows[i]| == n)
        ==> (forall i | 0 <= i < |NonNullRows(rows)| :: |NonNullRows(rows)[i]| == n)
  {
    if |rows| > 0 {
      NonNullRowsWidth(rows[1..], n);
    }
  }

  // ---------------------------------------------------------------------
  // pd.concat(tables, ignore_index=True)

  /** `acc` followed by the labels of `labels` it does not hold yet, in order of first appearance. */
  function AppendNew(acc: seq<string>, labels: seq<string>): (u: seq<string>)
    ensures acc <= u
    ensures forall l :: l in u <==> l in acc || l in labels
    ensures Distinct(acc) ==> Distinct(u)
    decreases |labels|
  {
    if |labels| == 0 then acc
    else AppendNew(if labels[0] in acc then acc else acc + [labels[0]], labels[1..])
  }

  /** The columns of a concatenation: every table's labels, each once, in order of first appearance. */
  function UnionHeaders(tables: seq<Table>): (u: seq<string>)
    requires AllWellFormed(tables)
    ensures Distinct(u)
    ensures forall t, l | t in tables && l in t.header :: l in u
    ensures forall l | l in u :: exists t :: t in tables && l in t.header
    decreases |tables|
  {
    if |tables| == 0 then []
    else
      var init := tables[..|tables| - 1];
      var u := AppendNew(UnionHeaders(init), tables[|tables| - 1].header);
      assert forall t | t in init :: t in tables;
      u
  }

  /** A row of a frame with columns `header`, placed under the columns `labels`: null where it has no such label. */
  function Realign(row: Row, header: seq<string>, labels: seq<string>): (r: Row)
    requires |row| == |header|
    ensures |r| == |labels|
  {
    seq(|labels|, k requires 0 <= k < |labels| =>
      if labels[k] in header then row[IndexOf(header, labels[k])] else None)
  }

  function TotalRows(tables: seq<Table>): nat
  {
    if |tables| == 0 then 0 else TotalRows(tables[..|tables| - 1]) + |tables[|tables| - 1].rows|
  }

  /** The rows of the tables, table after table, each realigned under `labels`. */
  function ConcatRows(tables: seq<Table>, labels: seq<string>): (rows: seq<Row>)
    requires AllRectangular(tables)
    ensures |rows| == TotalRows(tables)
    ensures forall i | 0 <= i < |rows| :: |rows[i]| == |labels|
    decreases |tables|
  {
    if |tables| == 0 then []
    else
      var t := tables[|tables| - 1];
      assert Rectangular(t);
      ConcatRows(tables[..|tables| - 1], labels)
        + seq(|t.rows|, i requires 0 <= i < |t.rows| => Realign(t.rows[i], t.header, labels))
  }

  /** `pd.concat(tables, ignore_index=True)`: columns are aligned by label, absent cells are null. */
  function Concat(tables: seq<Table>): (c: Table)
    requires AllWellFormed(tables)
    ensures WellFormed(c)
  {
    var labels := UnionHeaders(tables);
    Table(labels, ConcatRows(tables, labels))
  }

  /**
   * Alignment: row i of table p lands at position TotalRows(tables[..p]) + i of the
   * concatenation, with each of its cells under the column of the same label.
   */
  lemma {:induction false} ConcatAligns(tables: seq<Table>, p: nat, i: nat)
    requires AllWellFormed(tables)
    requires p < |tables| && i < |tables[p].rows|
    ensures TotalRows(tables[..p]) + i < |Concat(tables).rows|
    ensures Rectangular(tables[p])
    ensures Concat(tables).rows[TotalRows(tables[..p]) + i]
         == Realign(tables[p].rows[i], tables[p].header, UnionHeaders(tables))
  {
    assert Rectangular(tables[p]);
    var labels := UnionHeaders(tables);
    RowsAlign(tables, labels, p, i);
  }

  lemma {:induction false} RowsAlign(tables: seq<Table>, labels: seq<string>, p: nat, i: nat)
    requires AllRectangular(tables)
    requires p < |tables| && i < |tables[p].rows|
    ensures TotalRows(tables[..p]) + i < |ConcatRows(tables, labels)|
    ensures Rectangular(tables[p])
    ensures ConcatRows(tables, labels)[TotalRows(tables[..p]) + i]
         == Realign(tables[p].rows[i], tables[p].header, labels)
    decreases |tables|
  {
    var n := |tables| - 1;
    var init := tables[..n];
    assert Rectangular(tables[p]);
    if p == n {
      assert init == tables[..p];
    } else {
      RowsAlign(init, labels, p, i);
      assert init[..p] == tables[..p];
      assert init[p] == tables[p];
    }
  }

  /** Concatenating a single well-formed frame gives that frame back. */
  lemma ConcatSingle(t: Table)
    requires WellFormed(t)
    ensures Concat([t]) == t
  {
    assert AllRectangular([t]);
    AppendNewDistinct([], t.header);
    assert [t][..0] == [];
    assert UnionHeaders([t]) == t.header;
    var rows := ConcatRows([t], t.header);
    assert rows == seq(|t.rows|, i requires 0 <= i < |t.rows| => Realign(t.rows[i], t.header, t.header));
    forall i | 0 <= i < |t.rows| ensures rows[i] == t.rows[i] {
      RealignSame(t.rows[i], t.header);
    }
  }

  lemma RealignSame(row: Row, header: seq<string>)
    requires |row| == |header| && Distinct(header)
    ensures Realign(row, header, header) == row
  {
    var r := Realign(row, header, header);
    forall k | 0 <= k < |header| ensures r[k] == row[k] {
      IndexOfDistinct(header, k);
    }
  }

  lemma {:induction false} AppendNewDistinct(acc: seq<string>, labels: seq<string>)
    requires Distinct(acc + labels)
    ensures AppendNew(acc, labels) == acc + labels
    decreases |labels|
  {
    if |labels| > 0 {
      assert labels[0] == (acc + labels)[|acc|];
      forall k | 0 <= k < |acc| ensures acc[k] != labels[0] {
        assert (acc + labels)[k] == acc[k];
      }
      assert acc + [labels[0]] + labels[1..] == acc + labels;
      AppendNewDistinct(acc + [labels[0]], labels[1..]);
    }
  }

  // ---------------------------------------------------------------------
  // rename(columns=...) and df[col] = None

  /** `df.rename(columns=names)`: every label that is a key is replaced; cells do not move. */
  function Rename(t: Table, names: map<string, string>): (r: Table)
    ensures |r.header| == |t.header| && r.rows == t.rows
  {
    Table(seq(|t.header|, j requires 0 <= j < |t.header| =>
      if t.header[j] in names then names[t.header[j]] else t.header[j]), t.rows)
  }

  /** Renaming with an empty mapping changes nothing, so the source's `if column_mapping:` guard is immaterial. */
  lemma RenameEmpty(t: Table)
    ensures Rename(t, map[]) == t
  {
  }

  /** `df[name] = None` for a label the frame lacks: a new all-null column at the right. */
  function AddNullColumn(t: Table, name: string): (r: Table)
    ensures r.header == t.header + [name]
    ensures |r.rows| == |t.rows|
    ensures forall i | 0 <= i < |t.rows| :: r.rows[i] == t.rows[i] + [None]
    ensures Rectangular(t) ==> Rectangular(r)
  {
    Table(t.header + [name], seq(|t.rows|, i requires 0 <= i < |t.rows| => t.rows[i] + [None]))
  }

  // ---------------------------------------------------------------------
  // drop_duplicates()

  /** `drop_duplicates(keep='first')` on the rows of a frame: each value kept at its first occurrence. */
  function Dedup(s: seq<Row>): (r: seq<Row>)
    ensures Distinct(r)
    ensures forall x :: x in r <==> x in s
    ensures |r| <= |s|
    decreases |s|
  {
    if |s| == 0 then []
    else
      var d := Dedup(s[..|s| - 1]);
      if s[|s| - 1] in d then d else d + [s[|s| - 1]]
  }

  /**
   * Survivors keep the relative order of first occurrences: whatever occurs before
   * the first occurrence of a value y is kept before y.
   */
  lemma {:induction false} DedupKeepsFirstOrder(s: seq<Row>, i: nat, j: nat)
    requires i < j < |s| && s[j] !in s[..j]
    ensures s[i] in Dedup(s) && s[j] in Dedup(s)
    ensures IndexOf(Dedup(s), s[i]) < IndexOf(Dedup(s), s[j])
    decreases |s|
  {
    var n := |s| - 1;
    var init := s[..n];
    var d := Dedup(init);
    assert init[i] == s[i];
    if j == n {
      assert s[j] !in d;
      IndexOfAppend(d, s[j], s[i]);
      IndexOfFirst(d + [s[j]], s[j], |d|);
    } else {
      assert init[j] == s[j] && init[..j] == s[..j];
      DedupKeepsFirstOrder(init, i, j);
      if s[n] !in d {
        IndexOfAppend(d, s[n], s[i]);
        IndexOfAppend(d, s[n], s[j]);
      }
    }
  }

  /** A sequence without repeats is left as it is. */
  lemma {:induction false} DedupDistinct(s: seq<Row>)
    requires Distinct(s)
    ensures Dedup(s) == s
    decreases |s|
  {
    if |s| > 0 {
      var n := |s| - 1;
      DedupDistinct(s[..n]);
      assert s == s[..n] + [s[n]];
    }
  }
}
