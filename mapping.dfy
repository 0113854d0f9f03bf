/**
 * read_medgen_mapping: the mapping file becomes a table whose header comes from the first
 * non-blank line (a leading '#' marker removed) and whose cells are all stripped.
 */
module Mapping {
  import opened Wrappers
  import opened Text
  import opened Delimiter
  import opened Tables
  import opened Header

  /**
   * `fillna("")` followed by stripping every cell: one cell per column, a field the parser
   * did not supply reading as "".
   */
  function CleanRow(fields: seq<string>, width: nat): (row: seq<string>)
    ensures |row| == width
    ensures forall j :: 0 <= j < width ==> IsTrimmed(row[j])
    ensures forall j :: 0 <= j < width && j < |fields| ==> row[j] == Strip(fields[j])
    ensures forall j :: |fields| <= j < width ==> row[j] == ""
  {
    seq(width, j requires 0 <= j < width => if j < |fields| then Strip(fields[j]) else "")
  }

  function CleanRows(records: seq<seq<string>>, width: nat): (rows: seq<seq<string>>)
    ensures |rows| == |records|
    ensures forall k :: 0 <= k < |rows| ==> rows[k] == CleanRow(records[k], width)
  {
    seq(|records|, k requires 0 <= k < |records| => CleanRow(records[k], width))
  }

  /** Every row has one cell per column and every cell is stripped. */
  predicate IsCleanTable(t: Table) {
    forall k :: 0 <= k < |t.rows| ==>
      |t.rows[k]| == |t.columns| && forall j :: 0 <= j < |t.rows[k]| ==> IsTrimmed(t.rows[k][j])
  }

  /**
   * What read_medgen_mapping does once the header line is found: the columns come from the
   * cleaned header; the rows are what `parse` makes of the stripped text of the lines after
   * the header, cleaned, and there are none when that text is empty. `parse` stands for
   * pd.read_csv(sep=delim, header=None, names=columns, dtype=str, keep_default_na=False).
   */
  function TableAfterHeader(header: string, dataLines: seq<string>, parse: (string, char) -> seq<seq<string>>): Table {
    var headerClean := CleanHeader(header);
    var delim := DetectDelim(headerClean);
    var headerCols := HeaderColumns(headerClean);
    var dataText := Strip(JoinLines(dataLines));
    if dataText == "" then Table(headerCols, [])
    else Table(headerCols, CleanRows(parse(dataText, delim), |headerCols|))
  }

  /**
   * The table's columns are the cleaned header's; with nothing but blank lines after the
   * header it has no rows, otherwise its rows are the parsed records, cleaned.
   */
  lemma TableAfterHeaderRows(header: string, dataLines: seq<string>, parse: (string, char) -> seq<seq<string>>)
    ensures var t := TableAfterHeader(header, dataLines, parse);
      && t.columns == HeaderColumns(CleanHeader(header))
      && (AllBlank(dataLines) ==> t.rows == [])
      && (!AllBlank(dataLines) ==>
            t.rows == CleanRows(parse(Strip(JoinLines(dataLines)), DetectDelim(CleanHeader(header))), |t.columns|))
  {
    var text := JoinLines(dataLines);
    JoinLinesBlank(dataLines);
    BlankIsStripEmpty(text);
  }

  /** Every row of the table has one stripped cell per column. */
  lemma TableAfterHeaderClean(header: string, dataLines: seq<string>, parse: (string, char) -> seq<seq<string>>)
    ensures IsCleanTable(TableAfterHeader(header, dataLines, parse))
  {
    var headerClean := CleanHeader(header);
    var columns := HeaderColumns(headerClean);
    var dataText := Strip(JoinLines(dataLines));
    if dataText != "" {
      CleanRowsClean(parse(dataText, DetectDelim(headerClean)), columns);
    }
  }

  lemma CleanRowsClean(records: seq<seq<string>>, columns: seq<string>)
    ensures IsCleanTable(Table(columns, CleanRows(records, |columns|)))
  {
    var rows := CleanRows(records, |columns|);
    forall k | 0 <= k < |rows|
      ensures |rows[k]| == |columns| && forall j :: 0 <= j < |rows[k]| ==> IsTrimmed(rows[k][j])
    {
      assert rows[k] == CleanRow(records[k], |columns|);
    }
  }

  /** The table a mapping file with a non-blank line yields: its first non-blank line is the header. */
  function MappingTable(lines: seq<string>, parse: (string, char) -> seq<seq<string>>): Table
    requires !AllBlank(lines)
  {
    HeaderExists(lines);
    var h := FirstNonBlank(lines);
    TableAfterHeader(lines[h], lines[h + 1..], parse)
  }

  /**
   * read_medgen_mapping on the file's lines: EmptyInput when every line is blank, otherwise
   * MappingTable.
   */
  method ReadMapping(lines: seq<string>, parse: (string, char) -> seq<seq<string>>)
    returns (r: Result<Table, Error>)
    ensures r.Err? <==> AllBlank(lines)
    ensures r.Err? ==> r.error == EmptyInput
    ensures r.Ok? ==> r.value == MappingTable(lines, parse)
  {
    var found := FindHeader(lines);
    if found.Err? {
      return Err(found.error);
    }
    // The header line FindHeader stops at is the one MappingTable starts from.
    assert found.value == FirstNonBlank(lines);
    return Ok(MappingTable(lines, parse));
  }
}
