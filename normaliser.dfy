/**
 * The normaliser of utils/pdf_processor.py: `process_rol_tables` concatenates
 * the accepted tables and `clean_table_data` drops all-null rows, renames the
 * columns identify_columns recognises, adds the missing standard columns,
 * expands the abbreviation codes and drops duplicate rows.
 */
module Normaliser {
  import opened Options
  import opened Frames
  import opened Settings
  import opened ColumnIdentifier
  import opened RelevanceFilter

  /** Why no roster is produced. */
  datatype Failure =
    | NoRelevantTables        // process_rol_tables was given no table: it returns None
    | AmbiguousColumn(code: string)  // a code labels two columns of a non-empty frame: pandas raises ValueError

  /** `std_cols` */
  const StandardColumns: seq<string> := [
    "PROCEDIMENTO", "RN", "VIGÊNCIA", "OD", "AMB", "HCO", "HSO",
    "REF", "PAC", "DUT", "SUBGRUPO", "GRUPO", "CAPÍTULO"
  ]

  /** The roles whose names are the standard columns, in the same order. */
  const StandardRoles: seq<Role> := [
    Procedure, NormReference, Validity, Dental, Outpatient, HospitalWithObstetrics,
    HospitalWithoutObstetrics, ReferencePlan, HighComplexity, UsageGuideline, Subgroup,
    Group, Chapter
  ]

  /** The standard columns are exactly the names of the 13 roles, so a renamed column is never duplicated by one added later. */
  lemma StandardColumnsAreRoleNames()
    ensures |StandardColumns| == |StandardRoles| == 13
    ensures forall i | 0 <= i < 13 :: StandardColumns[i] == StandardRoles[i].Name()
    ensures forall r: Role :: r in StandardRoles
  {
    forall r: Role ensures r in StandardRoles {
      match r
      case Procedure => assert StandardRoles[0] == r;
      case NormReference => assert StandardRoles[1] == r;
      case Validity => assert StandardRoles[2] == r;
      case Dental => assert StandardRoles[3] == r;
      case Outpatient => assert StandardRoles[4] == r;
      case HospitalWithObstetrics => assert StandardRoles[5] == r;
      case HospitalWithoutObstetrics => assert StandardRoles[6] == r;
      case ReferencePlan => assert StandardRoles[7] == r;
      case HighComplexity => assert StandardRoles[8] == r;
      case UsageGuideline => assert StandardRoles[9] == r;
      case Subgroup => assert StandardRoles[10] == r;
      case Group => assert StandardRoles[11] == r;
      case Chapter => assert StandardRoles[12] == r;
    }
  }

  /** Every role name is a standard column. */
  lemma RoleNameIsStandard(r: Role)
    ensures r.Name() in StandardColumns
  {
    StandardColumnsAreRoleNames();
    assert r in StandardRoles;
    var i :| 0 <= i < |StandardRoles| && StandardRoles[i] == r;
    assert StandardColumns[i] == r.Name();
  }

  // ---------------------------------------------------------------------
  // Missing standard columns

  /** The frame after `for col in cols: if col not in df.columns: df[col] = None`. */
  function WithColumns(t: Table, cols: seq<string>): Table
    decreases |cols|
  {
    if |cols| == 0 then t
    else WithColumns(if cols[0] in t.header then t else AddNullColumn(t, cols[0]), cols[1..])
  }

  /**
   * Adding missing columns keeps every column and cell, adds only labels of `cols`
   * the frame lacked, fills them with null, and leaves every label of `cols` present.
   */
  lemma {:induction false} WithColumnsShape(t: Table, cols: seq<string>)
    requires Rectangular(t)
    ensures var r := WithColumns(t, cols);
      && Rectangular(r) && t.header <= r.header && |r.rows| == |t.rows|
      && (forall c | c in cols :: c in r.header)
      && (forall j | |t.header| <= j < |r.header| :: r.header[j] in cols && r.header[j] !in t.header)
      && (forall i | 0 <= i < |r.rows| :: r.rows[i][..|t.header|] == t.rows[i])
      && (forall i, j | 0 <= i < |r.rows| && |t.header| <= j < |r.header| :: r.rows[i][j] == None)
    decreases |cols|
  {
    if |cols| > 0 {
      var t' := if cols[0] in t.header then t else AddNullColumn(t, cols[0]);
      WithColumnsShape(t', cols[1..]);
      var r := WithColumns(t', cols[1..]);
      assert r == WithColumns(t, cols);
      assert cols[0] in t'.header;
      assert forall c | c in cols :: c == cols[0] || c in cols[1..];
      forall i | 0 <= i < |r.rows| ensures r.rows[i][..|t.header|] == t.rows[i] {
        assert r.rows[i][..|t'.header|] == t'.rows[i];
        assert t'.rows[i][..|t.header|] == t.rows[i];
      }
      forall i, j | 0 <= i < |r.rows| && |t.header| <= j < |r.header| ensures r.rows[i][j] == None {
        if j < |t'.header| {
          assert r.rows[i][j] == r.rows[i][..|t'.header|][j] == t'.rows[i][j];
        }
      }
      forall j | |t.header| <= j < |r.header| ensures r.header[j] in cols && r.header[j] !in t.header {
        if j < |t'.header| {
          assert r.header[j] == t'.header[j];
        }
      }
    }
  }

  /** Every label of cols the frame already has: nothing is added. */
  lemma {:induction false} WithColumnsPresent(t: Table, cols: seq<string>)
    requires forall c | c in cols :: c in t.header
    ensures WithColumns(t, cols) == t
    decreases |cols|
  {
    if |cols| > 0 {
      WithColumnsPresent(t, cols[1..]);
    }
  }

  /**
   * The loop of clean_table_data that adds each missing column of `cols`
   * (there, the standard columns) as an all-null column.
   */
  method AddMissingColumns(df: Table, cols: seq<string>) returns (r: Table)
    requires Rectangular(df)
    ensures r == WithColumns(df, cols)
    ensures Rectangular(r)
    ensures forall c | c in cols :: c in r.header
  {
    r := df;
    for k := 0 to |cols|
      invariant Rectangular(r)
      invariant WithColumns(r, cols[k..]) == WithColumns(df, cols)
    {
      var col := cols[k];
      assert cols[k..][1..] == cols[k + 1..];
      if col !in r.header {
        r := AddNullColumn(r, col);
      }
    }
    assert cols[|cols|..] == [];
    WithColumnsShape(df, cols);
  }

  // ---------------------------------------------------------------------
  // Abbreviation expansion

  /** `full_name if pd.notna(x) and x == code else x` */
  function ExpandCell(c: Cell, code: string, full: string): Cell
  {
    if c == Some(code) then Some(full) else c
  }

  /** `df[code] = df[code].apply(...)`: the cells of the columns labelled `code` are rewritten. */
  function ExpandColumn(t: Table, code: string, full: string): (r: Table)
    requires Rectangular(t)
    ensures r.header == t.header && |r.rows| == |t.rows| && Rectangular(r)
    ensures forall i, j | 0 <= i < |t.rows| && 0 <= j < |t.header| ::
      r.rows[i][j] == if t.header[j] == code then ExpandCell(t.rows[i][j], code, full) else t.rows[i][j]
  {
    Table(t.header, seq(|t.rows|, i requires 0 <= i < |t.rows| =>
      seq(|t.header|, j requires 0 <= j < |t.header| =>
        if t.header[j] == code then ExpandCell(t.rows[i][j], code, full) else t.rows[i][j])))
  }

  /** Rewriting one code column twice is rewriting it once, as long as the description is not the code. */
  lemma ExpandColumnIdempotent(t: Table, code: string, full: string)
    requires Rectangular(t) && full != code
    ensures ExpandColumn(ExpandColumn(t, code, full), code, full) == ExpandColumn(t, code, full)
  {
    var once := ExpandColumn(t, code, full);
    var twice := ExpandColumn(once, code, full);
    forall i | 0 <= i < |t.rows| ensures twice.rows[i] == once.rows[i] {
      forall j | 0 <= j < |t.header| ensures twice.rows[i][j] == once.rows[i][j] {
      }
    }
  }

  /**
   * One iteration of the expansion loop. With two columns labelled `code`,
   * `df[code]` is a frame, the lambda receives whole columns and pandas raises
   * ValueError on their truth value, unless the frame has no rows (then the
   * lambda's error is swallowed and the frame is unchanged).
   */
  function ExpandStep(t: Table, code: string, full: string): (r: Result<Table, Failure>)
    requires Rectangular(t)
    ensures r.Success? ==> r.value.header == t.header && |r.value.rows| == |t.rows| && Rectangular(r.value)
  {
    if code !in t.header then Success(t)
    else if Occurrences(t.header, code) > 1 && |t.rows| > 0 then Failure(AmbiguousColumn(code))
    else Success(ExpandColumn(t, code, full))
  }

  /** The whole expansion loop, stopping at the first error. */
  function ExpandAll(t: Table, table: AbbreviationTable): (r: Result<Table, Failure>)
    requires Rectangular(t)
    ensures r.Success? ==> r.value.header == t.header && |r.value.rows| == |t.rows| && Rectangular(r.value)
    ensures r.Failure? ==> r.error.AmbiguousColumn?
    decreases |table|
  {
    if |table| == 0 then Success(t)
    else
      match ExpandStep(t, table[0].0, table[0].1)
      case Failure(e) => Failure(e)
      case Success(t') => ExpandAll(t', table[1..])
  }

  /** `for col, full_name in ABBREVIATIONS.items(): if col in df.columns: df[col] = ...` */
  method ExpandAbbreviations(df: Table, table: AbbreviationTable) returns (r: Result<Table, Failure>)
    requires Rectangular(df)
    ensures r == ExpandAll(df, table)
  {
    var cur := df;
    for k := 0 to |table|
      invariant Rectangular(cur)
      invariant ExpandAll(cur, table[k..]) == ExpandAll(df, table)
    {
      var (code, full) := table[k];
      assert table[k..][1..] == table[k + 1..];
      if code in cur.header {
        if Occurrences(cur.header, code) > 1 && |cur.rows| > 0 {
          return Failure(AmbiguousColumn(code));
        }
        cur := ExpandColumn(cur, code, full);
      }
    }
    assert table[|table|..] == [];
    return Success(cur);
  }

  /** Reference reading of the expansion for one cell under column `label`. */
  function ExpandedCell(name: string, c: Cell, table: AbbreviationTable): (e: Cell)
    ensures e.Some? <==> c.Some?
  {
    match Lookup(table, name)
    case Some(full) => ExpandCell(c, name, full)
    case None => c
  }

  /**
   * The expansion fails exactly when some code labels two columns of a frame
   * with rows; otherwise it changes a cell only where the cell's column is
   * labelled by a code and the cell equals that code exactly, and then replaces
   * it with the code's description.
   */
  lemma {:induction false} ExpandAllCells(t: Table, table: AbbreviationTable)
    requires Rectangular(t) && DistinctCodes(table)
    ensures ExpandAll(t, table).Failure? <==>
      |t.rows| > 0 && exists k :: 0 <= k < |table| && Occurrences(t.header, table[k].0) > 1
    ensures ExpandAll(t, table).Success? ==>
      forall i, j | 0 <= i < |t.rows| && 0 <= j < |t.header| ::
        ExpandAll(t, table).value.rows[i][j] == ExpandedCell(t.header[j], t.rows[i][j], table)
    decreases |table|
  {
    if |table| > 0 {
      var (code, full) := table[0];
      var rest := table[1..];
      assert DistinctCodes(rest);
      assert forall k | 0 <= k < |rest| :: rest[k] == table[k + 1];
      var step := ExpandStep(t, code, full);
      if step.Success? {
        var t' := step.value;
        ExpandAllCells(t', rest);
        if ExpandAll(t, table).Success? {
          var r := ExpandAll(t, table).value;
          forall i, j | 0 <= i < |t.rows| && 0 <= j < |t.header|
            ensures r.rows[i][j] == ExpandedCell(t.header[j], t.rows[i][j], table)
          {
            if t.header[j] == code {
              assert Lookup(rest, code) == None;
            } else {
              assert Lookup(table, t.header[j]) == Lookup(rest, t.header[j]);
            }
          }
        }
      }
    }
  }

  /** The failure half of ExpandAllCells on its own. */
  lemma ExpandAllFailsIff(t: Table, table: AbbreviationTable)
    requires Rectangular(t) && DistinctCodes(table)
    ensures ExpandAll(t, table).Failure? <==>
      |t.rows| > 0 && exists k :: 0 <= k < |table| && Occurrences(t.header, table[k].0) > 1
  {
    ExpandAllCells(t, table);
  }

  /** One cell of ExpandAllCells. */
  lemma ExpandedCellAt(t: Table, table: AbbreviationTable, i: nat, j: nat)
    requires Rectangular(t) && DistinctCodes(table) && ExpandAll(t, table).Success?
    requires i < |t.rows| && j < |t.header|
    ensures ExpandAll(t, table).value.rows[i][j] == ExpandedCell(t.header[j], t.rows[i][j], table)
  {
    ExpandAllCells(t, table);
  }

  /** A row with a value keeps one after expansion. */
  lemma ExpandedRowKeepsValue(t: Table, table: AbbreviationTable, i: nat)
    requires Rectangular(t) && DistinctCodes(table) && ExpandAll(t, table).Success?
    requires i < |t.rows| && !AllNull(t.rows[i])
    ensures !AllNull(ExpandAll(t, table).value.rows[i])
  {
    var c: Cell :| c in t.rows[i] && c.Some?;
    var k: int :| 0 <= k < |t.rows[i]| && t.rows[i][k] == c;
    ExpandedCellAt(t, table, i, k);
    var row := ExpandAll(t, table).value.rows[i];
    assert row[k].Some? && row[k] in row;
  }

  /** A cell expanded once is left alone by a second expansion. */
  lemma ExpandedCellIdempotent(name: string, c: Cell, table: AbbreviationTable)
    requires forall k | 0 <= k < |table| :: table[k].1 != table[k].0
    ensures ExpandedCell(name, ExpandedCell(name, c, table), table) == ExpandedCell(name, c, table)
  {
    match Lookup(table, name)
    case None =>
    case Some(full) =>
      var k :| 0 <= k < |table| && table[k] == (name, full);
  }

  /**
   * Expansion is idempotent: no description equals its code, so an expanded
   * cell is never matched again.
   */
  lemma ExpandAllIdempotent(t: Table, table: AbbreviationTable)
    requires Rectangular(t) && DistinctCodes(table)
    requires forall k | 0 <= k < |table| :: table[k].1 != table[k].0
    requires ExpandAll(t, table).Success?
    ensures ExpandAll(ExpandAll(t, table).value, table) == ExpandAll(t, table)
  {
    var r := ExpandAll(t, table).value;
    ExpandAllCells(t, table);
    ExpandAllCells(r, table);
    var r2 := ExpandAll(r, table).value;
    forall i | 0 <= i < |r.rows| ensures r2.rows[i] == r.rows[i] {
      forall j | 0 <= j < |r.header| ensures r2.rows[i][j] == r.rows[i][j] {
        ExpandedCellIdempotent(t.header[j], t.rows[i][j], table);
      }
    }
    assert r2.rows == r.rows;
  }

  /** With the source's table, expanding an already expanded frame changes nothing. */
  lemma AbbreviationExpansionIdempotent(t: Table)
    requires Rectangular(t) && ExpandAll(t, Abbreviations).Success?
    ensures ExpandAll(ExpandAll(t, Abbreviations).value, Abbreviations) == ExpandAll(t, Abbreviations)
  {
    AbbreviationKeys();
    DescriptionsAreNotCodes();
    ExpandAllIdempotent(t, Abbreviations);
  }

  // ---------------------------------------------------------------------
  // clean_table_data

  /** The frame after dropping all-null rows and renaming the columns identify_columns recognised. */
  function Renamed(df: Table): (r: Table)
    requires Rectangular(df)
    ensures Rectangular(r) && |r.header| == |df.header|
  {
    var kept := DropAllNullRows(df);
    Rename(kept, ColumnMapping(kept))
  }

  /**
   * The labels after the rename: with distinct labels, column j is renamed to
   * the name of the first marker that hits its non-null cells, and keeps its
   * label when none does.
   */
  lemma RenamedHeader(df: Table, j: nat)
    requires Rectangular(df) && Distinct(df.header) && j < |df.header|
    ensures var role := FirstMarker(Markers, ColumnContent(DropAllNullRows(df), j));
      Renamed(df).header[j] == if role.Some? then role.value.Name() else df.header[j]
  {
    IdentifyColumnsCharacterised(DropAllNullRows(df));
  }

  /** The renamed frame with every missing column of `cols` added. */
  function Widened(df: Table, cols: seq<string>): (r: Table)
    requires Rectangular(df)
    ensures Rectangular(r) && Renamed(df).header <= r.header && |r.rows| == |DropAllNullRows(df).rows|
  {
    WithColumnsShape(Renamed(df), cols);
    WithColumns(Renamed(df), cols)
  }

  /**
   * What clean_table_data returns, or the error it raises while expanding
   * abbreviations, for standard columns `cols` and abbreviation table `table`
   * (there, `std_cols` and ABBREVIATIONS).
   */
  function CleanedWith(df: Table, cols: seq<string>, table: AbbreviationTable): (r: Result<Table, Failure>)
    requires Rectangular(df)
    ensures r.Failure? ==> r.error.AmbiguousColumn?
    ensures r.Success? ==> Rectangular(r.value) && |r.value.header| >= |df.header|
  {
    DedupRectangular(ExpandAll(Widened(df, cols), table));
    match ExpandAll(Widened(df, cols), table)
    case Failure(e) => Failure(e)
    case Success(expanded) => Success(Table(expanded.header, Dedup(expanded.rows)))
  }

  /** Dropping duplicate rows keeps a frame rectangular. */
  lemma DedupRectangular(e: Result<Table, Failure>)
    ensures e.Success? && Rectangular(e.value) ==> Rectangular(Table(e.value.header, Dedup(e.value.rows)))
  {
    if e.Success? && Rectangular(e.value) {
      var t := e.value;
      var d := Dedup(t.rows);
      forall i | 0 <= i < |d| ensures |d[i]| == |t.header| {
        assert d[i] in t.rows;
      }
    }
  }

  /** What clean_table_data returns. */
  function Cleaned(df: Table): Result<Table, Failure>
    requires Rectangular(df)
  {
    CleanedWith(df, StandardColumns, Abbreviations)
  }

  /** `clean_table_data(df)` */
  method CleanTableData(df: Table) returns (r: Result<Table, Failure>)
    requires Rectangular(df)
    ensures r == Cleaned(df)
  {
    var kept := DropAllNullRows(df);
    var mapping := IdentifyColumns(kept);
    var renamed := kept;
    if mapping != map[] {
      renamed := Rename(kept, mapping);
    } else {
      RenameEmpty(kept);
    }
    assert renamed == Renamed(df);
    var widened := AddMissingColumns(renamed, StandardColumns);
    var expanded := ExpandAbbreviations(widened, Abbreviations);
    match expanded {
      case Failure(e) => r := Failure(e);
      case Success(e) => r := Success(Table(e.header, Dedup(e.rows)));
    }
  }

  /** `x` occurs once more in `s + [y]` than in `s` exactly when y is x. */
  lemma {:induction false} OccurrencesAppend<T>(s: seq<T>, y: T, x: T)
    ensures Occurrences(s + [y], x) == Occurrences(s, x) + if y == x then 1 else 0
    decreases |s|
  {
    if |s| > 0 {
      assert (s + [y])[1..] == s[1..] + [y];
      OccurrencesAppend(s[1..], y, x);
    }
  }

  /** Adding missing columns never duplicates a label: a label present keeps its count, a new one occurs once. */
  lemma {:induction false} WithColumnsOccurrences(t: Table, cols: seq<string>, x: string)
    ensures Occurrences(WithColumns(t, cols).header, x) ==
      if x in t.header then Occurrences(t.header, x) else if x in cols then 1 else 0
    decreases |cols|
  {
    if |cols| > 0 {
      var t' := if cols[0] in t.header then t else AddNullColumn(t, cols[0]);
      WithColumnsOccurrences(t', cols[1..], x);
      if cols[0] !in t.header {
        OccurrencesAppend(t.header, cols[0], x);
      }
      assert forall c | c in cols :: c == cols[0] || c in cols[1..];
    }
  }

  /**
   * Cleaning fails exactly when the frame has rows left after dropping the
   * all-null ones and, after renaming, some abbreviation code labels two of its
   * columns.
   */
  lemma CleanedFailure(df: Table, cols: seq<string>, table: AbbreviationTable)
    requires Rectangular(df) && DistinctCodes(table)
    ensures CleanedWith(df, cols, table).Failure? <==>
      |DropAllNullRows(df).rows| > 0 &&
      exists k | 0 <= k < |table| :: Occurrences(Renamed(df).header, table[k].0) > 1
  {
    ExpandAllFailsIff(Widened(df, cols), table);
    forall k | 0 <= k < |table|
      ensures Occurrences(Widened(df, cols).header, table[k].0) > 1
          <==> Occurrences(Renamed(df).header, table[k].0) > 1
    {
      WithColumnsOccurrences(Renamed(df), cols, table[k].0);
    }
  }

  /**
   * The columns of the cleaned frame: the renamed columns, in place and none
   * dropped, followed by the columns of `cols` that were missing; every column
   * of `cols` is present.
   */
  lemma CleanedColumns(df: Table, cols: seq<string>, table: AbbreviationTable)
    requires Rectangular(df) && CleanedWith(df, cols, table).Success?
    ensures var r := CleanedWith(df, cols, table).value;
      && r.header[..|df.header|] == Renamed(df).header
      && (forall c | c in cols :: c in r.header)
      && (forall j | |df.header| <= j < |r.header| :: r.header[j] in cols && r.header[j] !in Renamed(df).header)
  {
    WithColumnsShape(Renamed(df), cols);
  }

  /** The columns added for the missing labels of `cols` hold only nulls. */
  lemma CleanedAddedColumnsNull(df: Table, cols: seq<string>, table: AbbreviationTable)
    requires Rectangular(df) && DistinctCodes(table) && CleanedWith(df, cols, table).Success?
    ensures var r := CleanedWith(df, cols, table).value;
      forall row, j | row in r.rows && |df.header| <= j < |r.header| :: row[j] == None
  {
    var w := Widened(df, cols);
    WithColumnsShape(Renamed(df), cols);
    var e := ExpandAll(w, table).value;
    var r := CleanedWith(df, cols, table).value;
    assert e.header == r.header == w.header && |e.rows| == |w.rows|;
    assert |Renamed(df).header| == |df.header|;
    forall row: Row, j | row in r.rows && |df.header| <= j < |r.header| ensures row[j] == None {
      var i :| 0 <= i < |e.rows| && e.rows[i] == row;
      assert w.rows[i][j] == None;
      ExpandedCellAt(w, table, i, j);
    }
  }

  /**
   * The rows of the cleaned frame: none is all-null, none repeats, and each is a
   * non-empty row of the input with every code cell under its code's column
   * expanded.
   */
  lemma CleanedRows(df: Table, cols: seq<string>, table: AbbreviationTable)
    requires Rectangular(df) && DistinctCodes(table) && CleanedWith(df, cols, table).Success?
    ensures var r := CleanedWith(df, cols, table).value;
      && Distinct(r.rows)
      && (forall row | row in r.rows :: !AllNull(row))
      && (forall row | row in r.rows :: exists src | src in df.rows ::
            !AllNull(src) && forall j | 0 <= j < |df.header| :: row[j] == ExpandedCell(r.header[j], src[j], table))
  {
    var w := Widened(df, cols);
    var n := |df.header|;
    var kept := DropAllNullRows(df);
    WithColumnsShape(Renamed(df), cols);
    var e := ExpandAll(w, table).value;
    var r := CleanedWith(df, cols, table).value;
    assert e.header == r.header == w.header && |e.rows| == |w.rows|;
    forall row: Row | row in r.rows
      ensures !AllNull(row)
      ensures exists src | src in df.rows ::
        !AllNull(src) && forall j | 0 <= j < n :: row[j] == ExpandedCell(r.header[j], src[j], table)
    {
      var i :| 0 <= i < |e.rows| && e.rows[i] == row;
      var src := kept.rows[i];
      assert src in kept.rows;
      assert w.rows[i][..n] == src;
      forall j | 0 <= j < n ensures row[j] == ExpandedCell(r.header[j], src[j], table) {
        assert w.rows[i][j] == w.rows[i][..n][j];
        ExpandedCellAt(w, table, i, j);
      }
      var c: Cell :| c in src && c.Some?;
      var k: int :| 0 <= k < n && src[k] == c;
      ExpandedCellAt(w, table, i, k);
      assert w.rows[i][k] == w.rows[i][..n][k];
    }
  }

  /**
   * Rows keep the order of their first occurrence: when the expanded frame's
   * row j first appears after row i, it stays after it once duplicates are
   * dropped.
   */
  lemma CleanedRowOrder(df: Table, cols: seq<string>, table: AbbreviationTable, i: nat, j: nat)
    requires Rectangular(df) && CleanedWith(df, cols, table).Success?
    requires var rows := ExpandAll(Widened(df, cols), table).value.rows;
      i < j < |rows| && rows[j] !in rows[..j]
    ensures var rows := ExpandAll(Widened(df, cols), table).value.rows;
      var out := CleanedWith(df, cols, table).value.rows;
      rows[i] in out && rows[j] in out && IndexOf(out, rows[i]) < IndexOf(out, rows[j])
  {
    DedupKeepsFirstOrder(ExpandAll(Widened(df, cols), table).value.rows, i, j);
  }

  /**
   * With the source's own constants: a cleaned roster has a column for every
   * role name, no all-null row and no repeated row, and it fails only on an
   * abbreviation code that labels two columns.
   */
  lemma CleanedRoster(df: Table)
    requires Rectangular(df)
    ensures Cleaned(df).Failure? <==>
      |DropAllNullRows(df).rows| > 0 &&
      exists k | 0 <= k < |Abbreviations| :: Occurrences(Renamed(df).header, Abbreviations[k].0) > 1
    ensures Cleaned(df).Success? ==>
      && (forall r: Role :: r.Name() in Cleaned(df).value.header)
      && Distinct(Cleaned(df).value.rows)
      && (forall row | row in Cleaned(df).value.rows :: !AllNull(row))
  {
    AbbreviationKeys();
    CleanedFailure(df, StandardColumns, Abbreviations);
    if Cleaned(df).Success? {
      CleanedColumns(df, StandardColumns, Abbreviations);
      CleanedRows(df, StandardColumns, Abbreviations);
      forall r: Role ensures r.Name() in Cleaned(df).value.header {
        RoleNameIsStandard(r);
      }
    }
  }

  // ---------------------------------------------------------------------
  // process_rol_tables and the utils pipeline of process_anexo_i

  /** What process_rol_tables returns for the accepted tables. */
  function Processed(tables: seq<Table>): Result<Table, Failure>
    requires AllWellFormed(tables)
  {
    if |tables| == 0 then Failure(NoRelevantTables) else Cleaned(Concat(tables))
  }

  /** `process_rol_tables(tables)`: None for no tables, otherwise the cleaned concatenation. */
  method ProcessRolTables(tables: seq<Table>) returns (r: Result<Table, Failure>)
    requires AllWellFormed(tables)
    ensures r == Processed(tables)
    ensures r == Failure(NoRelevantTables) <==> |tables| == 0
  {
    if |tables| == 0 {
      return Failure(NoRelevantTables);
    }
    var combined := Concat(tables);
    r := CleanTableData(combined);
  }

  /** The roster process_anexo_i builds from the tables extracted from Annex I. */
  function UtilsRoster(allTables: seq<Table>): Result<Table, Failure>
    requires AllWellFormed(RolTables(allTables, UtilsKeywords))
  {
    Processed(RolTables(allTables, UtilsKeywords))
  }

  /** Every accepted table is one of the input tables, so it is well formed too. */
  lemma RolTablesWellFormed(tables: seq<Table>, keywords: seq<string>)
    requires AllWellFormed(tables)
    ensures AllWellFormed(RolTables(tables, keywords))
  {
    RolTablesMembers(tables, keywords);
    var rol := RolTables(tables, keywords);
    forall p | 0 <= p < |rol| ensures WellFormed(rol[p]) {
      assert rol[p] in tables;
    }
  }

  /** The table-processing steps of process_anexo_i: select the roster tables, then process them. */
  method ProcessAnexoTables(allTables: seq<Table>) returns (r: Result<Table, Failure>)
    requires AllWellFormed(RolTables(allTables, UtilsKeywords))
    ensures r == UtilsRoster(allTables)
  {
    var rol := SelectRolTables(allTables, UtilsKeywords);
    r := ProcessRolTables(rol);
  }

  /** No roster is produced for want of tables exactly when no extracted table passes the filter. */
  lemma UtilsRosterNeedsRolTable(allTables: seq<Table>)
    requires AllWellFormed(RolTables(allTables, UtilsKeywords))
    ensures UtilsRoster(allTables) == Failure(NoRelevantTables) <==>
      forall t | t in allTables :: !IsRolTable(t, UtilsKeywords)
  {
    RolTablesMembers(allTables, UtilsKeywords);
    var rol := RolTables(allTables, UtilsKeywords);
    if |rol| > 0 {
      assert rol[0] in rol;
    }
  }
}
