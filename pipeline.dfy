/**
 * main without its I/O: read the definitions, then the mapping, then join them. The files'
 * lines are inputs and the two pandas readers are parameters.
 */
module Pipeline {
  import opened Wrappers
  import opened Text
  import opened Delimiter
  import opened Tables
  import opened Header
  import opened Definitions
  import opened Mapping
  import opened Join

  /**
   * The records main writes. Any reader error stops the run: a blank definitions file, a
   * definitions table without CUI or DEF, then a blank mapping file. Every record has its
   * MIM number as `_id` and `omim_id`, a concept identifier no other record has and a
   * non-empty definition.
   */
  method BuildDatabase(definitionLines: seq<string>, parseDefinitions: (string, char) -> Table,
                       mappingLines: seq<string>, parseMapping: (string, char) -> seq<seq<string>>)
    returns (r: Result<seq<Record>, Error>)
    ensures AllBlank(definitionLines) ==> r == Err(EmptyInput)
    ensures !AllBlank(definitionLines) && DefinitionsOfLines(definitionLines, parseDefinitions).Err? ==>
              r == Err(DefinitionsOfLines(definitionLines, parseDefinitions).error)
    ensures !AllBlank(definitionLines) && DefinitionsOfLines(definitionLines, parseDefinitions).Ok? ==>
              (r.Err? <==> AllBlank(mappingLines)) && (r.Err? ==> r.error == EmptyInput)
    ensures r.Ok? ==>
              var defs := DefinitionsOfLines(definitionLines, parseDefinitions).value;
              var table := MappingTable(mappingLines, parseMapping);
              r.value == JoinRows(ColumnIndex(table.columns), table.rows, defs)
    ensures r.Ok? ==> DistinctIds(r.value)
    ensures r.Ok? ==> forall rec :: rec in r.value ==>
              rec.id == rec.omimId && rec.id != "" && rec.medgenConceptId != "" && rec.medgenDiseaseInfo != ""
  {
    var defs := ReadDefinitions(definitionLines, parseDefinitions);
    if defs.Err? {
      return Err(defs.error);
    }
    var mapping := ReadMapping(mappingLines, parseMapping);
    if mapping.Err? {
      return Err(mapping.error);
    }
    var records := BuildRecords(mapping.value, defs.value);
    JoinRowsAllShaped(ColumnIndex(mapping.value.columns), mapping.value.rows, defs.value);
    return Ok(records);
  }
}
