/**
 * The relevance filter: a table belongs to the procedure roster when it has at
 * least 8 columns and some upper-cased header contains one of the keywords.
 * `identify_rol_tables` (utils/pdf_processor.py) uses PROCEDIMENTO, RN and
 * GRUPO; the loop in Ans.py's `extract_pdf_data` uses PROCEDIMENTO and GRUPO.
 */
module RelevanceFilter {
  import opened Text
  import opened Frames

  const MinColumns: nat := 8

  /** The keywords of identify_rol_tables. */
  const UtilsKeywords: seq<string> := ["PROCEDIMENTO", "RN", "GRUPO"]

  /** The keywords of the filter loop in extract_pdf_data. */
  const AnsKeywords: seq<string> := ["PROCEDIMENTO", "GRUPO"]

  /** `any(kw in h for h in headers)` for some keyword, headers upper-cased. */
  predicate HasKeywordHeader(header: seq<string>, keywords: seq<string>)
  {
    exists kw, h | kw in keywords && h in header :: Contains(Upper(h), kw)
  }

  predicate IsRolTable(t: Table, keywords: seq<string>)
  {
    |t.header| >= MinColumns && HasKeywordHeader(t.header, keywords)
  }

  /** The tables the filter keeps, in input order. */
  function RolTables(tables: seq<Table>, keywords: seq<string>): seq<Table>
  {
    if |tables| == 0 then []
    else
      var last := tables[|tables| - 1];
      RolTables(tables[..|tables| - 1], keywords) + (if IsRolTable(last, keywords) then [last] else [])
  }

  /** The loop of identify_rol_tables (and of extract_pdf_data), appending each accepted table. */
  method SelectRolTables(tables: seq<Table>, keywords: seq<string>) returns (relevant: seq<Table>)
    ensures relevant == RolTables(tables, keywords)
    ensures forall t | t in relevant :: t in tables && |t.header| >= MinColumns
  {
    relevant := [];
    var i := 0;
    while i < |tables|
      invariant 0 <= i <= |tables|
      invariant relevant == RolTables(tables[..i], keywords)
    {
      var table := tables[i];
      assert tables[..i + 1][..i] == tables[..i];
      if |table.header| >= MinColumns {
        var headers := seq(|table.header|, j requires 0 <= j < |table.header| => Upper(table.header[j]));
        var hasRelevantHeaders := exists kw, h | kw in keywords && h in headers :: Contains(h, kw);
        assert hasRelevantHeaders == HasKeywordHeader(table.header, keywords) by {
          UpperHeaders(table.header, headers, keywords);
        }
        if hasRelevantHeaders {
          relevant := relevant + [table];
        }
      }
      i := i + 1;
    }
    assert tables[..|tables|] == tables;
    RolTablesMembers(tables, keywords);
  }

  lemma UpperHeaders(header: seq<string>, headers: seq<string>, keywords: seq<string>)
    requires |headers| == |header| && forall j | 0 <= j < |header| :: headers[j] == Upper(header[j])
    ensures (exists kw, h | kw in keywords && h in headers :: Contains(h, kw))
        <==> HasKeywordHeader(header, keywords)
  {
    if exists kw, h | kw in keywords && h in headers :: Contains(h, kw) {
      var kw, h :| kw in keywords && h in headers && Contains(h, kw);
      var j :| 0 <= j < |headers| && headers[j] == h;
      assert header[j] in header && Contains(Upper(header[j]), kw);
    }
    if HasKeywordHeader(header, keywords) {
      var kw, h :| kw in keywords && h in header && Contains(Upper(h), kw);
      var j :| 0 <= j < |header| && header[j] == h;
      assert headers[j] in headers;
    }
  }

  /** A table is kept exactly when it is in the input and passes both gates. */
  lemma {:induction false} RolTablesMembers(tables: seq<Table>, keywords: seq<string>)
    ensures forall t :: t in RolTables(tables, keywords) <==> t in tables && IsRolTable(t, keywords)
  {
    if |tables| > 0 {
      var n := |tables| - 1;
      RolTablesMembers(tables[..n], keywords);
      assert tables == tables[..n] + [tables[n]];
    }
  }

  /** Order: the filter of a concatenation is the concatenation of the filters. */
  lemma {:induction false} RolTablesAppend(a: seq<Table>, b: seq<Table>, keywords: seq<string>)
    ensures RolTables(a + b, keywords) == RolTables(a, keywords) + RolTables(b, keywords)
    decreases |b|
  {
    if |b| > 0 {
      var n := |b| - 1;
      assert (a + b)[..|a + b| - 1] == a + b[..n];
      RolTablesAppend(a, b[..n], keywords);
    } else {
      assert a + b == a;
    }
  }

  /** Whatever its headers, a table with fewer than 8 columns is never kept. */
  lemma NarrowTablesRejected(tables: seq<Table>, keywords: seq<string>, t: Table)
    requires |t.header| < MinColumns
    ensures t !in RolTables(tables, keywords)
  {
    RolTablesMembers(tables, keywords);
  }

  /** A wide table whose upper-cased header contains GRUPO or PROCEDIMENTO passes either variant. */
  lemma KeywordHeaderAccepted(t: Table, h: string)
    requires |t.header| >= MinColumns && h in t.header
    requires Contains(Upper(h), "GRUPO") || Contains(Upper(h), "PROCEDIMENTO")
    ensures IsRolTable(t, UtilsKeywords) && IsRolTable(t, AnsKeywords)
  {
    if Contains(Upper(h), "GRUPO") {
      assert "GRUPO" in UtilsKeywords && "GRUPO" in AnsKeywords;
    } else {
      assert "PROCEDIMENTO" in UtilsKeywords && "PROCEDIMENTO" in AnsKeywords;
    }
  }

  /**
   * The two variants differ exactly by RN: extract_pdf_data keeps a subset of what
   * identify_rol_tables keeps, and a table that only identify_rol_tables keeps
   * has RN, and neither PROCEDIMENTO nor GRUPO, in its upper-cased headers.
   */
  lemma VariantsDifferByRn(t: Table)
    ensures IsRolTable(t, AnsKeywords) ==> IsRolTable(t, UtilsKeywords)
    ensures IsRolTable(t, UtilsKeywords) && !IsRolTable(t, AnsKeywords) <==>
      |t.header| >= MinColumns
      && HasKeywordHeader(t.header, ["RN"])
      && !HasKeywordHeader(t.header, ["PROCEDIMENTO", "GRUPO"])
  {
    if IsRolTable(t, AnsKeywords) {
      var kw, h :| kw in AnsKeywords && h in t.header && Contains(Upper(h), kw);
      assert kw in UtilsKeywords;
    }
    if IsRolTable(t, UtilsKeywords) && !IsRolTable(t, AnsKeywords) {
      var kw, h :| kw in UtilsKeywords && h in t.header && Contains(Upper(h), kw);
      assert !(kw in AnsKeywords && h in t.header && Contains(Upper(h), kw));
      assert kw == "RN";
      assert "RN" in ["RN"];
    }
    if HasKeywordHeader(t.header, ["RN"]) {
      var kw, h :| kw in ["RN"] && h in t.header && Contains(Upper(h), kw);
      assert kw in UtilsKeywords;
    }
  }
}
