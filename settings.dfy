/**
 * Process-wide constants of config/settings.py that the roster pipeline
 * reads: the abbreviation table and the two annex link patterns.
 */
module Settings {
  import opened Options
  import opened Text

  /** A code-to-description table, kept in the dict's insertion order. */
  type AbbreviationTable = seq<(string, string)>

  /** `ABBREVIATIONS`, in the order the dict literal lists it. */
  const Abbreviations: AbbreviationTable := [
    ("OD", "Seg. Odontológica"),
    ("AMB", "Seg. Ambulatorial"),
    ("HCO", "Seg. Hospitalar Com Obstetrícia"),
    ("HSO", "Seg. Hospitalar Sem Obstetrícia"),
    ("REF", "Plano Referência"),
    ("PAC", "Procedimento de Alta Complexidade"),
    ("DUT", "Diretrizes de Utilização")
  ]

  const AnexoIPattern: string := "Anexo_I_Rol"
  const AnexoIIPattern: string := "Anexo_II_DUT"

  /** The codes of a table, in order. */
  function Codes(table: AbbreviationTable): (codes: seq<string>)
    ensures |codes| == |table|
    ensures forall k | 0 <= k < |table| :: codes[k] == table[k].0
  {
    seq(|table|, k requires 0 <= k < |table| => table[k].0)
  }

  /** A dict holds each key once. */
  predicate DistinctCodes(table: AbbreviationTable)
  {
    forall k, m | 0 <= k < m < |table| :: table[k].0 != table[m].0
  }

  /** The dict lookup `ABBREVIATIONS.get(code)`. */
  function Lookup(table: AbbreviationTable, code: string): (d: Option<string>)
    ensures d.Some? <==> exists k :: 0 <= k < |table| && table[k].0 == code
    ensures d.Some? ==> exists k :: 0 <= k < |table| && table[k] == (code, d.value)
  {
    if |table| == 0 then None
    else if table[0].0 == code then Some(table[0].1)
    else
      var d := Lookup(table[1..], code);
      assert forall k | 0 <= k < |table| - 1 :: table[1..][k] == table[k + 1];
      d
  }

  /** The dict has exactly the seven keys OD, AMB, HCO, HSO, REF, PAC and DUT, each once. */
  lemma AbbreviationKeys()
    ensures DistinctCodes(Abbreviations)
    ensures (set k | 0 <= k < |Abbreviations| :: Abbreviations[k].0)
         == {"OD", "AMB", "HCO", "HSO", "REF", "PAC", "DUT"}
  {
    var keys := set k | 0 <= k < |Abbreviations| :: Abbreviations[k].0;
    assert Abbreviations[0].0 == "OD" && Abbreviations[1].0 == "AMB" && Abbreviations[2].0 == "HCO";
    assert Abbreviations[3].0 == "HSO" && Abbreviations[4].0 == "REF" && Abbreviations[5].0 == "PAC";
    assert Abbreviations[6].0 == "DUT";
  }

  /** No description is itself a code: an expanded cell can never be matched again. */
  lemma DescriptionsAreNotCodes()
    ensures forall k, m | 0 <= k < |Abbreviations| && 0 <= m < |Abbreviations| ::
      Abbreviations[k].1 != Abbreviations[m].0
  {
  }

  /** Two entries of the table, looked up by code. */
  lemma SampleEntries()
    ensures Lookup(Abbreviations, "OD") == Some("Seg. Odontológica")
    ensures Lookup(Abbreviations, "DUT") == Some("Diretrizes de Utilização")
    ensures Lookup(Abbreviations, "RN") == None
  {
  }

  /** Neither link pattern occurs in the other, so one pattern's hit says nothing of the other's. */
  lemma PatternsIndependent()
    ensures !Contains(AnexoIPattern, AnexoIIPattern)
    ensures !Contains(AnexoIIPattern, AnexoIPattern)
  {
    NoPositionNoContainment(AnexoIPattern, AnexoIIPattern);
    forall i ensures !OccursAt(AnexoIIPattern, AnexoIPattern, i) {
      if !(0 <= i && i + |AnexoIPattern| <= |AnexoIIPattern|) {
      } else if i == 0 {
        assert AnexoIIPattern[i..i + |AnexoIPattern|][7] != AnexoIPattern[7];
      } else {
        assert AnexoIIPattern[i..i + |AnexoIPattern|][0] != AnexoIPattern[0];
      }
    }
    NoPositionNoContainment(AnexoIIPattern, AnexoIPattern);
  }
}
