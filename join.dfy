/**
 * build_list_of_dicts: one pass over the mapping rows that keeps the first qualifying row
 * of each OMIM concept identifier and looks its definition up.
 */
module Join {
  import opened Wrappers
  import opened Text
  import opened Tables

  /** One output object: `_id`, `omim_id`, `omim_disease`, `medgen_concept_id`, `medgen_disease_info`. */
  datatype Record = Record(
    id: string,
    omimId: string,
    omimDisease: string,
    medgenConceptId: string,
    medgenDiseaseInfo: string)

  const MimNumberColumn: string := "MIM_number"
  const OmimNameColumn: string := "OMIM_name"
  const OmimCuiColumn: string := "OMIM_CUI"
  const HpoCuiColumn: string := "HPO_CUI"

  /** The definition used when the map has none. */
  const NotAvailable: string := "NA"

  /** `defs.get(key, "NA")` */
  function LookupOrNA(defs: map<string, string>, key: string): string {
    if key in defs then defs[key] else NotAvailable
  }

  /**
   * The definition of a record: looked up by OMIM CUI with "NA" as default, and looked up
   * again by HPO CUI only when that first result is the empty string and the HPO CUI is not.
   */
  function DiseaseInfo(defs: map<string, string>, omimCui: string, hpoCui: string): (info: string)
    ensures omimCui !in defs ==> info == NotAvailable
    ensures omimCui in defs && defs[omimCui] != "" ==> info == defs[omimCui]
    ensures omimCui in defs && defs[omimCui] == "" ==>
              info == if hpoCui == "" then "" else LookupOrNA(defs, hpoCui)
  {
    var info := LookupOrNA(defs, omimCui);
    if info == "" && hpoCui != "" then LookupOrNA(defs, hpoCui) else info
  }

  /**
   * When no definition is empty, which the definitions reader guarantees, the HPO CUI
   * fallback never changes the result: it is the OMIM CUI's definition, or "NA".
   */
  lemma FallbackNeverFires(defs: map<string, string>, omimCui: string, hpoCui: string)
    requires forall key :: key in defs ==> defs[key] != ""
    ensures DiseaseInfo(defs, omimCui, hpoCui) == LookupOrNA(defs, omimCui)
    ensures DiseaseInfo(defs, omimCui, hpoCui) != ""
  {
  }

  /** Every cell is blank: `all(str(x).strip() == "" for x in row)`. */
  predicate IsBlankRow(row: seq<string>) {
    forall k :: 0 <= k < |row| ==> IsBlank(row[k])
  }

  function OmimCui(colmap: map<string, nat>, row: seq<string>): string {
    Get(row, colmap, OmimCuiColumn)
  }

  /** The row is not blank and has a MIM number and an OMIM CUI. */
  predicate MappingRowQualifies(colmap: map<string, nat>, row: seq<string>) {
    !IsBlankRow(row) && Get(row, colmap, MimNumberColumn) != "" && OmimCui(colmap, row) != ""
  }

  /** The OMIM CUI a row contributes to the pass: present exactly when the row qualifies. */
  function RowKey(colmap: map<string, nat>, row: seq<string>): Option<string> {
    if MappingRowQualifies(colmap, row) then Some(OmimCui(colmap, row)) else None
  }

  /** The record a qualifying row yields. */
  function MakeRecord(colmap: map<string, nat>, row: seq<string>, defs: map<string, string>): Record {
    var mimNumber := Get(row, colmap, MimNumberColumn);
    var omimCui := OmimCui(colmap, row);
    Record(mimNumber, mimNumber, Get(row, colmap, OmimNameColumn), omimCui,
           DiseaseInfo(defs, omimCui, Get(row, colmap, HpoCuiColumn)))
  }

  /** The concept identifiers of a list of records: the seen-set of the pass. */
  function ConceptIds(records: seq<Record>): set<string> {
    set r | r in records :: r.medgenConceptId
  }

  /**
   * The output of the pass over `rows`: the output of the pass over all rows but the last,
   * extended with the last row's record when it qualifies and its OMIM CUI is new.
   */
  function JoinRows(colmap: map<string, nat>, rows: seq<seq<string>>, defs: map<string, string>): seq<Record> {
    if |rows| == 0 then []
    else
      var before := JoinRows(colmap, rows[..|rows| - 1], defs);
      var row := rows[|rows| - 1];
      var key := RowKey(colmap, row);
      if key.Some? && key.value !in ConceptIds(before)
      then before + [MakeRecord(colmap, row, defs)]
      else before
  }

  /**
   * build_list_of_dicts: the for loop over the rows with its seen-set. The output is
   * JoinRows, holds no concept identifier twice and is no longer than the table.
   */
  method BuildRecords(mapping: Table, defs: map<string, string>) returns (results: seq<Record>)
    ensures results == JoinRows(ColumnIndex(mapping.columns), mapping.rows, defs)
    ensures |results| <= |mapping.rows|
    ensures DistinctIds(results)
  {
    var colmap := ColumnIndex(mapping.columns);
    var rows := mapping.rows;
    results := [];
    var seen: set<string> := {};
    for i := 0 to |rows|
      invariant results == JoinRows(colmap, rows[..i], defs)
      invariant seen == ConceptIds(results)
    {
      JoinRowsStep(colmap, rows, i, defs);
      var row := rows[i];
      if IsBlankRow(row) {
        continue;
      }
      var omimCui := Get(row, colmap, OmimCuiColumn);
      var mimNumber := Get(row, colmap, MimNumberColumn);
      var omimName := Get(row, colmap, OmimNameColumn);
      var hpoCui := Get(row, colmap, HpoCuiColumn);
      if mimNumber == "" || omimCui == "" {
        continue;
      }
      if omimCui in seen {
        continue;
      }
      var record := Record(mimNumber, mimNumber, omimName, omimCui, DiseaseInfo(defs, omimCui, hpoCui));
      assert record == MakeRecord(colmap, row, defs);
      ConceptIdsAppend(results, record);
      seen := seen + {omimCui};
      results := results + [record];
    }
    assert rows[..|rows|] == rows;
    JoinRowsLength(colmap, rows, defs);
    JoinRowsDistinct(colmap, rows, defs);
  }

  /** One step of the pass: JoinRows over the first i + 1 rows in terms of the first i. */
  lemma JoinRowsStep(colmap: map<string, nat>, rows: seq<seq<string>>, i: nat, defs: map<string, string>)
    requires i < |rows|
    ensures var before := JoinRows(colmap, rows[..i], defs);
      JoinRows(colmap, rows[..i + 1], defs) ==
        if RowKey(colmap, rows[i]).Some? && RowKey(colmap, rows[i]).value !in ConceptIds(before)
        then before + [MakeRecord(colmap, rows[i], defs)]
        else before
  {
    assert rows[..i + 1][..i] == rows[..i];
  }

  lemma ConceptIdsAppend(records: seq<Record>, r: Record)
    ensures ConceptIds(records + [r]) == ConceptIds(records) + {r.medgenConceptId}
  {
    assert forall x :: x in records + [r] <==> x in records || x == r;
  }

  // ---------------------------------------------------------------------------
  // Properties of the pass

  /** The OMIM CUIs of the qualifying rows. */
  function QualifyingCuis(colmap: map<string, nat>, rows: seq<seq<string>>): set<string> {
    if |rows| == 0 then {}
    else
      var row := rows[|rows| - 1];
      var key := RowKey(colmap, rows[|rows| - 1]);
      QualifyingCuis(colmap, rows[..|rows| - 1]) + if key.Some? then {key.value} else {}
  }

  lemma {:induction false} QualifyingCuisSpec(colmap: map<string, nat>, rows: seq<seq<string>>, c: string)
    ensures c in QualifyingCuis(colmap, rows) <==>
              exists i :: 0 <= i < |rows| && RowKey(colmap, rows[i]) == Some(c)
  {
    if |rows| > 0 {
      var n := |rows| - 1;
      var init := rows[..n];
      QualifyingCuisSpec(colmap, init, c);
      if c in QualifyingCuis(colmap, init) {
        var i :| 0 <= i < n && RowKey(colmap, init[i]) == Some(c);
        assert init[i] == rows[i];
      }
      if exists i :: 0 <= i < |rows| && RowKey(colmap, rows[i]) == Some(c) {
        var i :| 0 <= i < |rows| && RowKey(colmap, rows[i]) == Some(c);
        if i < n {
          assert init[i] == rows[i];
        }
      }
    }
  }

  /** Row `i` qualifies and no earlier qualifying row has its OMIM CUI. */
  predicate FirstMappingRow(colmap: map<string, nat>, rows: seq<seq<string>>, i: int) {
    && 0 <= i < |rows| && RowKey(colmap, rows[i]).Some?
    && forall j :: 0 <= j < i ==> RowKey(colmap, rows[j]) != RowKey(colmap, rows[i])
  }

  /** The output is never longer than the input. */
  lemma {:induction false} JoinRowsLength(colmap: map<string, nat>, rows: seq<seq<string>>, defs: map<string, string>)
    ensures |JoinRows(colmap, rows, defs)| <= |rows|
  {
    if |rows| > 0 {
      JoinRowsLength(colmap, rows[..|rows| - 1], defs);
    }
  }

  /** The seen-set after the pass holds exactly the OMIM CUIs of the qualifying rows. */
  lemma {:induction false} JoinRowsConceptIds(colmap: map<string, nat>, rows: seq<seq<string>>, defs: map<string, string>)
    ensures ConceptIds(JoinRows(colmap, rows, defs)) == QualifyingCuis(colmap, rows)
  {
    if |rows| > 0 {
      var init := rows[..|rows| - 1];
      JoinRowsConceptIds(colmap, init, defs);
      var before := JoinRows(colmap, init, defs);
      var row := rows[|rows| - 1];
      if RowKey(colmap, row).Some? && RowKey(colmap, row).value !in ConceptIds(before) {
        ConceptIdsAppend(before, MakeRecord(colmap, row, defs));
      }
    }
  }

  /** No two records share a concept identifier. */
  predicate DistinctIds(records: seq<Record>) {
    forall i, j :: 0 <= i < j < |records| ==> records[i].medgenConceptId != records[j].medgenConceptId
  }

  /** No two records of the output share a concept identifier. */
  lemma {:induction false} JoinRowsDistinct(colmap: map<string, nat>, rows: seq<seq<string>>, defs: map<string, string>)
    ensures DistinctIds(JoinRows(colmap, rows, defs))
  {
    if |rows| > 0 {
      var row := rows[|rows| - 1];
      var before := JoinRows(colmap, rows[..|rows| - 1], defs);
      JoinRowsDistinct(colmap, rows[..|rows| - 1], defs);
      var key := RowKey(colmap, row);
      if key.Some? && key.value !in ConceptIds(before) {
        var last := MakeRecord(colmap, row, defs);
        var out := before + [last];
        assert last.medgenConceptId == key.value;
        forall i, j | 0 <= i < j < |out| ensures out[i].medgenConceptId != out[j].medgenConceptId {
          if j < |before| {
            assert out[i] == before[i] && out[j] == before[j];
          } else {
            assert out[i] == before[i] && out[j] == last;
            assert before[i] in before;
            assert before[i].medgenConceptId in ConceptIds(before);
          }
        }
        assert JoinRows(colmap, rows, defs) == out;
      }
    }
  }

  /** Whether a row is the first of its OMIM CUI does not depend on the rows after it. */
  lemma FirstMappingRowPrefix(colmap: map<string, nat>, rows: seq<seq<string>>, n: nat, i: int)
    requires 0 <= i < n <= |rows|
    ensures FirstMappingRow(colmap, rows[..n], i) <==> FirstMappingRow(colmap, rows, i)
  {
    assert forall j :: 0 <= j <= i ==> rows[..n][j] == rows[j];
  }

  /** Every record of the output is the record of a row that is the first of its OMIM CUI. */
  lemma {:induction false} JoinRowsMembersFirst(colmap: map<string, nat>, rows: seq<seq<string>>, defs: map<string, string>, r: Record)
    requires r in JoinRows(colmap, rows, defs)
    ensures exists i :: FirstMappingRow(colmap, rows, i) && r == MakeRecord(colmap, rows[i], defs)
  {
    var n := |rows| - 1;
    var init := rows[..n];
    var before := JoinRows(colmap, init, defs);
    if r in before {
      JoinRowsMembersFirst(colmap, init, defs, r);
      var i :| FirstMappingRow(colmap, init, i) && r == MakeRecord(colmap, init[i], defs);
      FirstMappingRowPrefix(colmap, rows, n, i);
      assert init[i] == rows[i];
    } else {
      var key := RowKey(colmap, rows[n]);
      assert key.Some? && key.value !in ConceptIds(before) && r == MakeRecord(colmap, rows[n], defs);
      JoinRowsConceptIds(colmap, init, defs);
      forall j | 0 <= j < n ensures RowKey(colmap, rows[j]) != key {
        assert init[j] == rows[j];
        QualifyingCuisSpec(colmap, init, key.value);
      }
      assert FirstMappingRow(colmap, rows, n);
    }
  }

  /** Every row that is the first of its OMIM CUI has its record in the output. */
  lemma {:induction false} JoinRowsFirstMembers(colmap: map<string, nat>, rows: seq<seq<string>>, defs: map<string, string>, i: int)
    requires FirstMappingRow(colmap, rows, i)
    ensures MakeRecord(colmap, rows[i], defs) in JoinRows(colmap, rows, defs)
  {
    var n := |rows| - 1;
    var init := rows[..n];
    var before := JoinRows(colmap, init, defs);
    if i < n {
      FirstMappingRowPrefix(colmap, rows, n, i);
      JoinRowsFirstMembers(colmap, init, defs, i);
      assert init[i] == rows[i];
    } else {
      var key := RowKey(colmap, rows[n]);
      forall j | 0 <= j < n ensures RowKey(colmap, init[j]) != Some(key.value) {
        assert init[j] == rows[j];
      }
      QualifyingCuisSpec(colmap, init, key.value);
      JoinRowsConceptIds(colmap, init, defs);
    }
  }

  /**
   * Every output record has the MIM number as both `_id` and `omim_id`, a non-empty MIM
   * number and a non-empty concept identifier; when no definition is empty, its disease
   * information is never empty either.
   */
  lemma JoinRowsShape(colmap: map<string, nat>, rows: seq<seq<string>>, defs: map<string, string>, r: Record)
    requires r in JoinRows(colmap, rows, defs)
    ensures r.id == r.omimId && r.id != "" && r.medgenConceptId != ""
    ensures (forall key :: key in defs ==> defs[key] != "") ==> r.medgenDiseaseInfo != ""
  {
    JoinRowsMembersFirst(colmap, rows, defs, r);
  }

  /** The pass only appends: its output on a prefix of the rows is a prefix of its output. */
  lemma {:induction false} JoinRowsPrefix(colmap: map<string, nat>, rows: seq<seq<string>>, defs: map<string, string>, n: nat)
    requires n <= |rows|
    ensures JoinRows(colmap, rows[..n], defs) <= JoinRows(colmap, rows, defs)
    decreases |rows| - n
  {
    if n < |rows| {
      JoinRowsStep(colmap, rows, n, defs);
      JoinRowsPrefix(colmap, rows, defs, n + 1);
    } else {
      assert rows[..n] == rows;
    }
  }

  /**
   * The output follows the order of the rows: the record of an earlier first-of-its-CUI
   * row comes before the record of a later one.
   */
  lemma JoinRowsOrder(colmap: map<string, nat>, rows: seq<seq<string>>, defs: map<string, string>, i: int, j: int)
    requires FirstMappingRow(colmap, rows, i) && FirstMappingRow(colmap, rows, j) && i < j
    ensures var out := JoinRows(colmap, rows, defs);
      exists a, b :: 0 <= a < b < |out| &&
        out[a] == MakeRecord(colmap, rows[i], defs) && out[b] == MakeRecord(colmap, rows[j], defs)
  {
    var out := JoinRows(colmap, rows, defs);
    var head := rows[..i + 1];
    var p := JoinRows(colmap, head, defs);
    JoinRowsPrefix(colmap, rows, defs, i + 1);
    FirstMappingRowPrefix(colmap, rows, i + 1, i);
    JoinRowsFirstMembers(colmap, head, defs, i);
    assert head[i] == rows[i];
    var a :| 0 <= a < |p| && p[a] == MakeRecord(colmap, rows[i], defs);
    var later := MakeRecord(colmap, rows[j], defs);
    // The records already out after row i belong to rows up to i, none of which has row j's CUI.
    forall c | 0 <= c < |p| ensures p[c] != later {
      assert p[c] in p;
      JoinRowsMembersFirst(colmap, head, defs, p[c]);
      var k :| FirstMappingRow(colmap, head, k) && p[c] == MakeRecord(colmap, head[k], defs);
      assert head[k] == rows[k];
      assert RowKey(colmap, rows[k]) != RowKey(colmap, rows[j]);
    }
    assert forall c :: 0 <= c < |p| ==> out[c] == p[c];
    JoinRowsFirstMembers(colmap, rows, defs, j);
    var b :| 0 <= b < |out| && out[b] == later;
  }

  /** JoinRowsShape for every record at once, for a definition map without empty values. */
  lemma JoinRowsAllShaped(colmap: map<string, nat>, rows: seq<seq<string>>, defs: map<string, string>)
    requires forall key :: key in defs ==> defs[key] != ""
    ensures forall rec :: rec in JoinRows(colmap, rows, defs) ==>
              rec.id == rec.omimId && rec.id != "" && rec.medgenConceptId != "" && rec.medgenDiseaseInfo != ""
  {
    forall rec | rec in JoinRows(colmap, rows, defs)
      ensures rec.id == rec.omimId && rec.id != "" && rec.medgenConceptId != "" && rec.medgenDiseaseInfo != ""
    {
      JoinRowsShape(colmap, rows, defs, rec);
    }
  }

  /**
   * A mapping row `100050, Example Disease, C001, H001` with the definition
   * `C001 -> Some disease` yields one record carrying that definition.
   */
  lemma JoinExample()
    ensures var columns := [MimNumberColumn, OmimNameColumn, OmimCuiColumn, HpoCuiColumn];
      var rows := [["100050", "Example Disease", "C001", "H001"]];
      JoinRows(ColumnIndex(columns), rows, map["C001" := "Some disease"])
        == [Record("100050", "100050", "Example Disease", "C001", "Some disease")]
  {
    var row := ["100050", "Example Disease", "C001", "H001"];
    var colmap := ColumnIndex([MimNumberColumn, OmimNameColumn, OmimCuiColumn, HpoCuiColumn]);
    ExampleColumnIndex();
    ColumnKeys();
    assert Get(row, colmap, MimNumberColumn) == "100050";
    assert Get(row, colmap, OmimNameColumn) == "Example Disease";
    assert Get(row, colmap, OmimCuiColumn) == "C001";
    assert Get(row, colmap, HpoCuiColumn) == "H001";
    assert !IsBlank(row[0]);
    var rows: seq<seq<string>> := [row];
    assert rows[..0] == [];
  }

  /** The column index of the example's header. */
  lemma ExampleColumnIndex()
    ensures ColumnIndex([MimNumberColumn, OmimNameColumn, OmimCuiColumn, HpoCuiColumn])
      == map["mim_number" := 0, "omim_name" := 1, "omim_cui" := 2, "hpo_cui" := 3]
  {
    var columns := [MimNumberColumn, OmimNameColumn, OmimCuiColumn, HpoCuiColumn];
    ColumnKeys();
    var c1, c2, c3 := columns[..1], columns[..2], columns[..3];
    assert c1[..0] == [] && c2[..1] == c1 && c3[..2] == c2 && columns[..3] == c3;
    assert ColumnIndex(c1) == map["mim_number" := 0];
    assert ColumnIndex(c2) == map["mim_number" := 0, "omim_name" := 1];
    assert ColumnIndex(c3) == map["mim_number" := 0, "omim_name" := 1, "omim_cui" := 2];
  }

  /** The lower-cased names build_list_of_dicts looks up. */
  lemma ColumnKeys()
    ensures Lower(MimNumberColumn) == "mim_number" && Lower(OmimNameColumn) == "omim_name"
    ensures Lower(OmimCuiColumn) == "omim_cui" && Lower(HpoCuiColumn) == "hpo_cui"
  {
    assert Lower(MimNumberColumn) == "mim_number";
    assert Lower(OmimNameColumn) == "omim_name";
    assert Lower(OmimCuiColumn) == "omim_cui";
  }
}
