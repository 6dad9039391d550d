/**
 * `identify_columns`: each column is given the role of the first marker, in a
 * fixed priority order, that occurs in one of its non-null upper-cased cells.
 * The two copies of the function (utils/pdf_processor.py and Ans.py) are
 * identical and are modelled once.
 */
module ColumnIdentifier {
  import opened Options
  import opened Text
  import opened Frames

  /** The semantic roles a column can be given. */
  datatype Role =
    | Procedure | NormReference | Validity | Outpatient | Dental
    | HospitalWithObstetrics | HospitalWithoutObstetrics | ReferencePlan
    | HighComplexity | UsageGuideline | Group | Subgroup | Chapter
  {
    /** The standard column name a column of this role is renamed to. */
    function Name(): string
    {
      match this
      case Procedure => "PROCEDIMENTO"
      case NormReference => "RN"
      case Validity => "VIGÊNCIA"
      case Outpatient => "AMB"
      case Dental => "OD"
      case HospitalWithObstetrics => "HCO"
      case HospitalWithoutObstetrics => "HSO"
      case ReferencePlan => "REF"
      case HighComplexity => "PAC"
      case UsageGuideline => "DUT"
      case Group => "GRUPO"
      case Subgroup => "SUBGRUPO"
      case Chapter => "CAPÍTULO"
    }
  }

  /** The marker tests of the if/elif chain, in the order they are made. */
  const Markers: seq<(string, Role)> := [
    ("PROCED", Procedure), ("RN", NormReference), ("VIG", Validity), ("AMB", Outpatient),
    ("OD", Dental), ("HCO", HospitalWithObstetrics), ("HSO", HospitalWithoutObstetrics),
    ("REF", ReferencePlan), ("PAC", HighComplexity), ("DUT", UsageGuideline),
    ("GRUP", Group), ("SUBGRUP", Subgroup), ("CAP", Chapter)
  ]

  /** `cells.dropna().astype(str).str.upper()`: the non-null cells, upper-cased, in order. */
  function UpperValues(cells: seq<Cell>): (vs: seq<string>)
    ensures |vs| <= |cells|
  {
    if |cells| == 0 then []
    else
      var rest := UpperValues(cells[1..]);
      match cells[0]
      case None => rest
      case Some(s) => [Upper(s)] + rest
  }

  /** The inspected values are exactly the upper-cased non-null cells. */
  lemma {:induction false} UpperValuesExact(cells: seq<Cell>)
    ensures forall i | 0 <= i < |cells| && cells[i].Some? :: Upper(cells[i].value) in UpperValues(cells)
    ensures forall v | v in UpperValues(cells) ::
      exists i :: 0 <= i < |cells| && cells[i].Some? && v == Upper(cells[i].value)
  {
    if |cells| > 0 {
      UpperValuesExact(cells[1..]);
      assert forall i | 1 <= i < |cells| :: cells[i] == cells[1..][i - 1];
    }
  }

  /** Column j of a frame. */
  function Column(t: Table, j: nat): (c: seq<Cell>)
    requires Rectangular(t) && j < |t.header|
    ensures |c| == |t.rows|
    ensures forall i | 0 <= i < |t.rows| :: c[i] == t.rows[i][j]
  {
    seq(|t.rows|, i requires 0 <= i < |t.rows| => t.rows[i][j])
  }

  /** What identify_columns inspects of column j. */
  function ColumnContent(t: Table, j: nat): seq<string>
    requires Rectangular(t) && j < |t.header|
  {
    UpperValues(Column(t, j))
  }

  /** `any(col_content.str.contains(marker))` */
  predicate AnyContains(content: seq<string>, marker: string)
  {
    |content| > 0 && (Contains(content[0], marker) || AnyContains(content[1..], marker))
  }

  /** A hit is a cell that contains the marker. */
  lemma {:induction false} AnyContainsHit(content: seq<string>, marker: string)
    ensures AnyContains(content, marker) <==> exists v :: v in content && Contains(v, marker)
  {
    if |content| > 0 {
      AnyContainsHit(content[1..], marker);
      if AnyContains(content, marker) {
        if Contains(content[0], marker) {
          assert content[0] in content;
        } else {
          var v :| v in content[1..] && Contains(v, marker);
          assert v in content;
        }
      }
      if exists v :: v in content && Contains(v, marker) {
        var v :| v in content && Contains(v, marker);
        if v != content[0] {
          assert v in content[1..];
        }
      }
    }
  }

  /** The if/elif chain of identify_columns, for one column's content. */
  function Classify(content: seq<string>): Option<Role>
  {
    if AnyContains(content, "PROCED") then Some(Procedure)
    else if AnyContains(content, "RN") then Some(NormReference)
    else if AnyContains(content, "VIG") then Some(Validity)
    else if AnyContains(content, "AMB") then Some(Outpatient)
    else if AnyContains(content, "OD") then Some(Dental)
    else if AnyContains(content, "HCO") then Some(HospitalWithObstetrics)
    else if AnyContains(content, "HSO") then Some(HospitalWithoutObstetrics)
    else if AnyContains(content, "REF") then Some(ReferencePlan)
    else if AnyContains(content, "PAC") then Some(HighComplexity)
    else if AnyContains(content, "DUT") then Some(UsageGuideline)
    else if AnyContains(content, "GRUP") then Some(Group)
    else if AnyContains(content, "SUBGRUP") then Some(Subgroup)
    else if AnyContains(content, "CAP") then Some(Chapter)
    else None
  }

  /** Reference reading of a priority list: the role of the first marker that hits. */
  function FirstMarker(markers: seq<(string, Role)>, content: seq<string>): Option<Role>
  {
    if |markers| == 0 then None
    else if AnyContains(content, markers[0].0) then Some(markers[0].1)
    else FirstMarker(markers[1..], content)
  }

  /** FirstMarker returns the role of the first hitting marker, and nothing when none hits. */
  lemma {:induction false} FirstMarkerWins(markers: seq<(string, Role)>, content: seq<string>, k: nat)
    requires k <= |markers|
    requires forall m | 0 <= m < k :: !AnyContains(content, markers[m].0)
    ensures k < |markers| && AnyContains(content, markers[k].0)
        ==> FirstMarker(markers, content) == Some(markers[k].1)
    ensures k == |markers| ==> FirstMarker(markers, content) == None
    decreases k
  {
    if k > 0 {
      assert !AnyContains(content, markers[0].0);
      FirstMarkerWins(markers[1..], content, k - 1);
    }
  }

  lemma FirstMarkerStep(markers: seq<(string, Role)>, k: nat, content: seq<string>)
    requires k < |markers|
    ensures FirstMarker(markers[k..], content)
         == if AnyContains(content, markers[k].0) then Some(markers[k].1)
            else FirstMarker(markers[k + 1..], content)
  {
    assert markers[k..][1..] == markers[k + 1..];
  }

  /** The if/elif chain is exactly "first marker of Markers that hits wins". */
  lemma ClassifyIsFirstMarker(content: seq<string>)
    ensures Classify(content) == FirstMarker(Markers, content)
  {
    var ms := Markers;
    assert ms[13..] == [];
    FirstMarkerStep(ms, 12, content);
    FirstMarkerStep(ms, 11, content);
    FirstMarkerStep(ms, 10, content);
    FirstMarkerStep(ms, 9, content);
    FirstMarkerStep(ms, 8, content);
    FirstMarkerStep(ms, 7, content);
    FirstMarkerStep(ms, 6, content);
    FirstMarkerStep(ms, 5, content);
    FirstMarkerStep(ms, 4, content);
    FirstMarkerStep(ms, 3, content);
    FirstMarkerStep(ms, 2, content);
    FirstMarkerStep(ms, 1, content);
    FirstMarkerStep(ms, 0, content);
    assert ms[0..] == ms;
  }

  /** The position of a role in the priority order. */
  function Rank(r: Role): (k: nat)
    ensures k < |Markers| && Markers[k].1 == r
  {
    match r
    case Procedure => 0
    case NormReference => 1
    case Validity => 2
    case Outpatient => 3
    case Dental => 4
    case HospitalWithObstetrics => 5
    case HospitalWithoutObstetrics => 6
    case ReferencePlan => 7
    case HighComplexity => 8
    case UsageGuideline => 9
    case Group => 10
    case Subgroup => 11
    case Chapter => 12
  }

  /**
   * A column with a cell containing SUBGRUP is classified, at GRUPO's rank or
   * earlier: "SUBGRUP" contains "GRUP", which is tested first.
   */
  lemma SubgroupCellsStopAtGroup(content: seq<string>)
    requires AnyContains(content, "SUBGRUP")
    ensures Classify(content).Some?
    ensures Rank(Classify(content).value) <= Rank(Group)
  {
    AnyContainsHit(content, "SUBGRUP");
    AnyContainsHit(content, "GRUP");
    var v :| v in content && Contains(v, "SUBGRUP");
    assert OccursAt("SUBGRUP", "GRUP", 3);
    OccursContains("SUBGRUP", "GRUP", 3);
    ContainsTransitive(v, "SUBGRUP", "GRUP");
  }

  /** The SUBGRUPO branch is dead: no content is ever classified as Subgroup. */
  lemma SubgroupUnreachable(content: seq<string>)
    ensures Classify(content) != Some(Subgroup)
  {
    if AnyContains(content, "SUBGRUP") {
      SubgroupCellsStopAtGroup(content);
    }
  }

  /** The role identify_columns gives each column of a frame, in column order. */
  function ColumnRoles(t: Table): (roles: seq<Option<Role>>)
    requires Rectangular(t)
    ensures |roles| == |t.header|
    ensures forall j | 0 <= j < |t.header| :: roles[j] == Classify(ColumnContent(t, j))
  {
    seq(|t.header|, j requires 0 <= j < |t.header| => Classify(ColumnContent(t, j)))
  }

  /** The dict the loop of identify_columns has built after the first n columns, given each column's role. */
  function MappingUpTo(header: seq<string>, roles: seq<Option<Role>>, n: nat): map<string, string>
    requires n <= |header| == |roles|
  {
    if n == 0 then map[]
    else
      var m := MappingUpTo(header, roles, n - 1);
      match roles[n - 1]
      case Some(role) => m[header[n - 1] := role.Name()]
      case None => m
  }

  lemma MappingNext(header: seq<string>, roles: seq<Option<Role>>, n: nat)
    requires n < |header| == |roles|
    ensures MappingUpTo(header, roles, n + 1)
         == if roles[n].Some? then MappingUpTo(header, roles, n)[header[n] := roles[n].value.Name()]
            else MappingUpTo(header, roles, n)
  {
  }

  /** What identify_columns returns. */
  function ColumnMapping(t: Table): map<string, string>
    requires Rectangular(t)
  {
    MappingUpTo(t.header, ColumnRoles(t), |t.header|)
  }

  /** `identify_columns(df)` */
  method IdentifyColumns(df: Table) returns (mapping: map<string, string>)
    requires Rectangular(df)
    ensures mapping == ColumnMapping(df)
    ensures forall l | l in mapping :: l in df.header
    ensures "SUBGRUPO" !in mapping.Values
  {
    mapping := map[];
    var i := 0;
    while i < |df.header|
      invariant 0 <= i <= |df.header|
      invariant mapping == MappingUpTo(df.header, ColumnRoles(df), i)
    {
      var role := Classify(ColumnContent(df, i));
      assert role == ColumnRoles(df)[i];
      MappingNext(df.header, ColumnRoles(df), i);
      if role.Some? {
        mapping := mapping[df.header[i] := role.value.Name()];
      }
      i := i + 1;
    }
    ColumnMappingShape(df);
  }

  /** Every key of identify_columns' result is a label of the frame, and SUBGRUPO is never a value. */
  lemma ColumnMappingShape(t: Table)
    requires Rectangular(t)
    ensures forall l | l in ColumnMapping(t) :: l in t.header
    ensures "SUBGRUPO" !in ColumnMapping(t).Values
  {
    NoSubgroupRole(t);
    MappingShape(t.header, ColumnRoles(t), |t.header|);
    assert t.header[..|t.header|] == t.header;
  }

  /** No column of any frame is given the Subgroup role. */
  lemma NoSubgroupRole(t: Table)
    requires Rectangular(t)
    ensures Some(Subgroup) !in ColumnRoles(t)
  {
    forall j | 0 <= j < |t.header| ensures ColumnRoles(t)[j] != Some(Subgroup) {
      SubgroupUnreachable(ColumnContent(t, j));
    }
  }

  /** Keys are labels of the first n columns; SUBGRUPO is a value only if some role is Subgroup. */
  lemma {:induction false} MappingShape(header: seq<string>, roles: seq<Option<Role>>, n: nat)
    requires n <= |header| == |roles|
    ensures forall l | l in MappingUpTo(header, roles, n) :: l in header[..n]
    ensures Some(Subgroup) !in roles ==> "SUBGRUPO" !in MappingUpTo(header, roles, n).Values
  {
    if n > 0 {
      MappingShape(header, roles, n - 1);
      assert header[..n - 1] <= header[..n];
      if roles[n - 1].Some? && Some(Subgroup) !in roles {
        assert roles[n - 1] in roles;
        NameOfNonSubgroup(roles[n - 1].value);
      }
    }
  }

  lemma NameOfNonSubgroup(r: Role)
    requires r != Subgroup
    ensures r.Name() != "SUBGRUPO"
  {
  }

  /**
   * With distinct labels: a label is a key exactly when its column has a role,
   * and it maps to that role's name.
   */
  lemma {:induction false} MappingCharacterised(header: seq<string>, roles: seq<Option<Role>>, n: nat)
    requires Distinct(header) && n <= |header| == |roles|
    ensures forall j | 0 <= j < n :: header[j] in MappingUpTo(header, roles, n) <==> roles[j].Some?
    ensures forall j | 0 <= j < n && header[j] in MappingUpTo(header, roles, n) ::
      MappingUpTo(header, roles, n)[header[j]] == roles[j].value.Name()
  {
    if n > 0 {
      var k := n - 1;
      MappingCharacterised(header, roles, k);
      MappingShape(header, roles, k);
      assert forall j | 0 <= j < k :: header[..k][j] != header[k];
      assert header[k] !in header[..k];
    }
  }

  /**
   * identify_columns on a frame with distinct labels: column j's label is a key
   * exactly when some marker hits its content, and it then maps to the name of
   * the role of the first marker that hits; every key is a label.
   */
  lemma IdentifyColumnsCharacterised(t: Table)
    requires WellFormed(t)
    ensures forall l | l in ColumnMapping(t) :: l in t.header
    ensures forall j | 0 <= j < |t.header| ::
      t.header[j] in ColumnMapping(t) <==> FirstMarker(Markers, ColumnContent(t, j)).Some?
    ensures forall j | 0 <= j < |t.header| && t.header[j] in ColumnMapping(t) ::
      ColumnMapping(t)[t.header[j]] == FirstMarker(Markers, ColumnContent(t, j)).value.Name()
  {
    var roles := ColumnRoles(t);
    MappingCharacterised(t.header, roles, |t.header|);
    MappingShape(t.header, roles, |t.header|);
    assert t.header[..|t.header|] == t.header;
    forall j | 0 <= j < |t.header| ensures roles[j] == FirstMarker(Markers, ColumnContent(t, j)) {
      ClassifyIsFirstMarker(ColumnContent(t, j));
    }
  }
}
