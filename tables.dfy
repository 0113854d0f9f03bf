/** Tables as the tabular parser hands them over, and case-insensitive column lookup. */
module Tables {
  import opened Text

  /** The fatal errors of the two readers. */
  datatype Error =
    | EmptyInput                        // every line of the file is blank
    | MissingColumns(found: seq<string>) // the definitions file lacks CUI or DEF; `found` lists its columns

  /** Column names and rows of string cells, in file order. */
  datatype Table = Table(columns: seq<string>, rows: seq<seq<string>>)

  /** Some column's lower-cased name is `key`. */
  predicate HasColumn(columns: seq<string>, key: string) {
    exists j :: 0 <= j < |columns| && Lower(columns[j]) == key
  }

  /**
   * `{c.lower(): c for c in columns}`, with positions standing for the names: when two
   * columns have the same lower-cased name, the later one wins, as in a dict comprehension.
   */
  function ColumnIndex(columns: seq<string>): (m: map<string, nat>)
    ensures forall key :: key in m ==> m[key] < |columns| && Lower(columns[m[key]]) == key
  {
    if |columns| == 0 then map[]
    else ColumnIndex(columns[..|columns| - 1])[Lower(columns[|columns| - 1]) := |columns| - 1]
  }

  /** A key is present exactly when some column matches it, and it names the last such column. */
  lemma {:induction false} ColumnIndexSpec(columns: seq<string>, key: string)
    ensures key in ColumnIndex(columns) <==> HasColumn(columns, key)
    ensures key in ColumnIndex(columns) ==>
              forall j :: ColumnIndex(columns)[key] < j < |columns| ==> Lower(columns[j]) != key
  {
    if |columns| > 0 {
      var n := |columns| - 1;
      var init := columns[..n];
      ColumnIndexSpec(init, key);
      assert forall j :: 0 <= j < n ==> init[j] == columns[j];
      if HasColumn(columns, key) && Lower(columns[n]) != key {
        var j :| 0 <= j < |columns| && Lower(columns[j]) == key;
        assert Lower(init[j]) == key;
      }
    }
  }

  /**
   * The `get(row, name)` helper of build_list_of_dicts: the cell of the column whose
   * lower-cased name is `name.lower()`, and "" when there is none. A DataFrame row has
   * a cell for every column; the bound test only keeps the function total.
   */
  function Get(row: seq<string>, colmap: map<string, nat>, name: string): string {
    var key := Lower(name);
    if key in colmap && colmap[key] < |row| then row[colmap[key]] else ""
  }

  /**
   * Looking a name up in a row as wide as the header: "" when no column matches,
   * otherwise the cell of the last matching column.
   */
  lemma GetSpec(columns: seq<string>, row: seq<string>, name: string)
    requires |row| == |columns|
    ensures !HasColumn(columns, Lower(name)) ==> Get(row, ColumnIndex(columns), name) == ""
    ensures HasColumn(columns, Lower(name)) ==>
              exists j :: 0 <= j < |columns| && Lower(columns[j]) == Lower(name) &&
                (forall i :: j < i < |columns| ==> Lower(columns[i]) != Lower(name)) &&
                Get(row, ColumnIndex(columns), name) == row[j]
  {
    ColumnIndexSpec(columns, Lower(name));
    if HasColumn(columns, Lower(name)) {
      var j := ColumnIndex(columns)[Lower(name)];
      assert Lower(columns[j]) == Lower(name);
    }
  }
}
