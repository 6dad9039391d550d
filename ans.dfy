/**
 * The roster pipeline of Ans.py's `extract_pdf_data`: the same relevance test
 * without the RN keyword, then concatenation, removal of all-null rows,
 * renaming and abbreviation expansion, but no standard columns added and no
 * duplicate rows dropped. Every exception inside is caught and becomes None.
 * Ans.py's identify_columns is the same chain as utils/pdf_processor.py's, so
 * ColumnIdentifier serves both; its ABBREVIATIONS is its own copy.
 */
module AnsExtraction {
  import opened Options
  import opened Frames
  import opened Settings
  import opened ColumnIdentifier
  import opened RelevanceFilter
  import opened Normaliser

  /** Ans.py's own ABBREVIATIONS. */
  const AnsAbbreviations: AbbreviationTable := [
    ("OD", "Seg. Odontológica"),
    ("AMB", "Seg. Ambulatorial"),
    ("HCO", "Seg. Hospitalar Com Obstetrícia"),
    ("HSO", "Seg. Hospitalar Sem Obstetrícia"),
    ("REF", "Plano Referência"),
    ("PAC", "Procedimento de Alta Complexidade"),
    ("DUT", "Diretrizes de Utilização")
  ]

  /** Ans.py's table is the one of config/settings.py, entry for entry and in the same order. */
  lemma SameAbbreviations()
    ensures AnsAbbreviations == Abbreviations
    ensures DistinctCodes(AnsAbbreviations)
  {
    AbbreviationKeys();
  }

  /** The frame extract_pdf_data returns for the accepted tables, or None when it logs an error. */
  function AnsFrame(rol: seq<Table>): Option<Table>
    requires AllWellFormed(rol)
  {
    if |rol| == 0 then None
    else
      match ExpandAll(Renamed(Concat(rol)), AnsAbbreviations)
      case Failure(_) => None
      case Success(t) => Some(t)
  }

  /** The roster extract_pdf_data builds from the tables extracted from the PDF. */
  function AnsRoster(allTables: seq<Table>): Option<Table>
    requires AllWellFormed(RolTables(allTables, AnsKeywords))
  {
    AnsFrame(RolTables(allTables, AnsKeywords))
  }

  /** The table-processing part of `extract_pdf_data`, after the tables have been extracted. */
  method ExtractPdfData(allTables: seq<Table>) returns (r: Option<Table>)
    requires AllWellFormed(RolTables(allTables, AnsKeywords))
    ensures r == AnsRoster(allTables)
  {
    var rol := SelectRolTables(allTables, AnsKeywords);
    if |rol| == 0 {
      return None;
    }
    var combined := Concat(rol);
    var df := DropAllNullRows(combined);
    var columnNames := IdentifyColumns(df);
    if columnNames != map[] {
      df := Rename(df, columnNames);
    } else {
      RenameEmpty(df);
    }
    assert df == Renamed(combined);
    var expanded := ExpandAbbreviations(df, AnsAbbreviations);
    match expanded {
      case Failure(_) => r := None;
      case Success(t) => r := Some(t);
    }
  }

  /**
   * extract_pdf_data returns None exactly when no table passes the relevance
   * test or, in a frame with rows, some abbreviation code labels two columns.
   */
  lemma AnsRosterNone(allTables: seq<Table>)
    requires AllWellFormed(RolTables(allTables, AnsKeywords))
    ensures var rol := RolTables(allTables, AnsKeywords);
      AnsRoster(allTables).None? <==>
        (forall t | t in allTables :: !IsRolTable(t, AnsKeywords)) ||
        (|rol| > 0 && AllWellFormed(rol) && |DropAllNullRows(Concat(rol)).rows| > 0 &&
         exists k | 0 <= k < |AnsAbbreviations| :: Occurrences(Renamed(Concat(rol)).header, AnsAbbreviations[k].0) > 1)
  {
    RolTablesMembers(allTables, AnsKeywords);
    var rol := RolTables(allTables, AnsKeywords);
    if |rol| > 0 {
      assert rol[0] in rol;
      SameAbbreviations();
      ExpandAllFailsIff(Renamed(Concat(rol)), AnsAbbreviations);
    }
  }

  /** Expansion keeps every row in place, rewriting code cells only, so a row with a value keeps one. */
  lemma ExpansionKeepsRows(t: Table, table: AbbreviationTable)
    requires Rectangular(t) && DistinctCodes(table) && ExpandAll(t, table).Success?
    requires forall row | row in t.rows :: !AllNull(row)
    ensures forall row | row in ExpandAll(t, table).value.rows :: !AllNull(row)
  {
    var r := ExpandAll(t, table).value;
    forall row: Row | row in r.rows ensures !AllNull(row) {
      var i :| 0 <= i < |r.rows| && r.rows[i] == row;
      assert t.rows[i] in t.rows;
      ExpandedRowKeepsValue(t, table, i);
    }
  }

  /**
   * The frame extract_pdf_data returns keeps exactly the renamed columns (no
   * standard column is added) and every non-empty row, repeats included, with
   * the code cells expanded.
   */
  lemma AnsFrameShape(rol: seq<Table>)
    requires AllWellFormed(rol) && AnsFrame(rol).Some?
    ensures var t := AnsFrame(rol).value; var kept := DropAllNullRows(Concat(rol));
      && t.header == Renamed(Concat(rol)).header
      && |t.rows| == |kept.rows|
      && (forall i, j | 0 <= i < |t.rows| && 0 <= j < |t.header| ::
            t.rows[i][j] == ExpandedCell(t.header[j], kept.rows[i][j], AnsAbbreviations))
      && (forall row | row in t.rows :: !AllNull(row))
  {
    SameAbbreviations();
    ExpandAllCells(Renamed(Concat(rol)), AnsAbbreviations);
    ExpansionKeepsRows(Renamed(Concat(rol)), AnsAbbreviations);
  }

  /**
   * Without and with the missing columns: when expanding the renamed frame
   * succeeds, cleaning succeeds too, and each of its rows is an expanded
   * renamed row followed by nulls.
   */
  lemma WideningAgrees(df: Table, cols: seq<string>, table: AbbreviationTable)
    requires Rectangular(df) && DistinctCodes(table) && ExpandAll(Renamed(df), table).Success?
    ensures CleanedWith(df, cols, table).Success?
    ensures var a := ExpandAll(Renamed(df), table).value; var n := |df.header|;
      var e := ExpandAll(Widened(df, cols), table).value;
      && |e.rows| == |a.rows|
      && (forall i | 0 <= i < |e.rows| :: |e.rows[i]| >= n && e.rows[i][..n] == a.rows[i])
  {
    var w := Widened(df, cols);
    var n := |df.header|;
    WithColumnsShape(Renamed(df), cols);
    ExpandAllFailsIff(Renamed(df), table);
    assert |Renamed(df).rows| == |DropAllNullRows(df).rows|;
    CleanedFailure(df, cols, table);
    assert ExpandAll(w, table).Success?;
    var a := ExpandAll(Renamed(df), table).value;
    var e := ExpandAll(w, table).value;
    assert |Renamed(df).header| == n;
    forall i | 0 <= i < |e.rows| ensures e.rows[i][..n] == a.rows[i] {
      forall j | 0 <= j < n ensures e.rows[i][j] == a.rows[i][j] {
        assert w.rows[i][j] == w.rows[i][..n][j];
        ExpandedCellAt(w, table, i, j);
        ExpandedCellAt(Renamed(df), table, i, j);
      }
    }
  }

  /**
   * Cleaning extends the expanded renamed frame: its header starts with the
   * renamed header, each of its rows starts with an expanded renamed row, and
   * each expanded renamed row starts one of its rows.
   */
  lemma CleanedExtendsExpanded(df: Table, cols: seq<string>, table: AbbreviationTable)
    requires Rectangular(df) && DistinctCodes(table) && ExpandAll(Renamed(df), table).Success?
    ensures CleanedWith(df, cols, table).Success?
    ensures var a := ExpandAll(Renamed(df), table).value; var u := CleanedWith(df, cols, table).value;
      var n := |a.header|;
      && u.header[..n] == a.header
      && (forall row | row in u.rows :: |row| >= n && row[..n] in a.rows)
      && (forall arow | arow in a.rows :: exists row | row in u.rows :: |row| >= n && row[..n] == arow)
  {
    WideningAgrees(df, cols, table);
    CleanedColumns(df, cols, table);
    var a := ExpandAll(Renamed(df), table).value;
    var e := ExpandAll(Widened(df, cols), table).value;
    var u := CleanedWith(df, cols, table).value;
    var n := |a.header|;
    assert u.rows == Dedup(e.rows);
    forall row | row in u.rows ensures |row| >= n && row[..n] in a.rows {
      var i :| 0 <= i < |e.rows| && e.rows[i] == row;
    }
    forall arow | arow in a.rows ensures exists row | row in u.rows :: |row| >= n && row[..n] == arow {
      var i :| 0 <= i < |a.rows| && a.rows[i] == arow;
      assert e.rows[i] in u.rows;
    }
  }

  /**
   * The two pipelines agree on the columns they share: when extract_pdf_data
   * returns a frame for a set of accepted tables, process_rol_tables succeeds
   * on the same tables, and its rows are the extract_pdf_data rows without
   * repeats, each followed by the null cells of the added standard columns.
   */
  lemma VariantsAgree(rol: seq<Table>)
    requires AllWellFormed(rol) && AnsFrame(rol).Some?
    ensures Processed(rol).Success?
    ensures var a := AnsFrame(rol).value; var u := Processed(rol).value; var n := |a.header|;
      && u.header[..n] == a.header
      && (forall row | row in u.rows :: |row| >= n && row[..n] in a.rows)
      && (forall arow | arow in a.rows :: exists row | row in u.rows :: |row| >= n && row[..n] == arow)
  {
    SameAbbreviations();
    CleanedExtendsExpanded(Concat(rol), StandardColumns, Abbreviations);
  }
}
