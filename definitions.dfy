/**
 * read_mgdef_map: the definitions file becomes a map from concept identifier (CUI)
 * to definition text (DEF).
 */
module Definitions {
  import opened Wrappers
  import opened Text
  import opened Delimiter
  import opened Tables
  import opened Header

  const CuiKey: string := "cui"
  const DefKey: string := "def"

  /**
   * The text assumed for a field that a short row of the definitions file lacks: the
   * tokeniser is taken to leave a NaN there, which `.astype(str)` turns into "nan".
   */
  const MissingCell: string := "nan"

  /** The definitions frame's cell in column `j`; a short row is missing the trailing fields. */
  function CellText(row: seq<string>, j: nat): string {
    if j < |row| then row[j] else MissingCell
  }

  /** A (CUI, DEF) pair. */
  type Pair = (string, string)

  /** The stripped CUI of a row. */
  function CuiOf(row: seq<string>, ci: nat): string {
    Strip(CellText(row, ci))
  }

  /** The stripped DEF of a row. */
  function DefOf(row: seq<string>, di: nat): string {
    Strip(CellText(row, di))
  }

  /** The two `.astype(str).str.strip()` assignments: each row's CUI and DEF, stripped. */
  function TrimmedPairs(rows: seq<seq<string>>, ci: nat, di: nat): (ps: seq<Pair>)
    ensures |ps| == |rows|
    ensures forall k :: 0 <= k < |ps| ==> ps[k] == (CuiOf(rows[k], ci), DefOf(rows[k], di))
  {
    seq(|rows|, k requires 0 <= k < |rows| => (CuiOf(rows[k], ci), DefOf(rows[k], di)))
  }

  predicate Good(p: Pair) {
    p.0 != "" && p.1 != ""
  }

  /** The filter `(cui != "") & (def != "")`: the pairs with both parts non-empty, in order. */
  function NonEmptyPairs(ps: seq<Pair>): (qs: seq<Pair>)
    ensures forall p :: p in qs ==> Good(p) && p in ps
  {
    if |ps| == 0 then []
    else (if Good(ps[0]) then [ps[0]] else []) + NonEmptyPairs(ps[1..])
  }

  /**
   * drop_duplicates(subset=[cui], keep="first"): a pair is kept when no earlier pair had
   * its CUI; `seen` holds the CUIs of the pairs kept so far.
   */
  function DropLaterDuplicates(ps: seq<Pair>, seen: set<string>): (qs: seq<Pair>)
    ensures forall p :: p in qs ==> p in ps && p.0 !in seen
    ensures forall i, j :: 0 <= i < j < |qs| ==> qs[i].0 != qs[j].0
  {
    if |ps| == 0 then []
    else if ps[0].0 in seen then DropLaterDuplicates(ps[1..], seen)
    else
      var rest := DropLaterDuplicates(ps[1..], seen + {ps[0].0});
      assert forall p :: p in rest ==> p.0 != ps[0].0;
      [ps[0]] + rest
  }

  /** `Series(values, index).to_dict()`: a later pair overrides an earlier one with the same key. */
  function ToDict(ps: seq<Pair>): (m: map<string, string>)
    ensures forall k :: 0 <= k < |ps| ==> ps[k].0 in m
    ensures forall key :: key in m ==> exists p :: p in ps && p.0 == key && p.1 == m[key]
  {
    if |ps| == 0 then map[]
    else
      var init := ps[..|ps| - 1];
      var m := ToDict(init)[ps[|ps| - 1].0 := ps[|ps| - 1].1];
      assert forall k :: 0 <= k < |init| ==> init[k] == ps[k];
      assert forall p :: p in init ==> p in ps;
      m
  }

  /** The post-parse part of read_mgdef_map: strip, filter, deduplicate, build the map. */
  function DefinitionMap(rows: seq<seq<string>>, ci: nat, di: nat): map<string, string> {
    DictOfPairs(TrimmedPairs(rows, ci, di))
  }

  /**
   * The columns are looked up case-insensitively (the last column of a given lower-cased
   * name wins); without a CUI or a DEF column reading fails with the columns found.
   */
  function DefinitionsFrom(frame: Table): (r: Result<map<string, string>, Error>)
    ensures r.Err? <==> !HasColumn(frame.columns, CuiKey) || !HasColumn(frame.columns, DefKey)
    ensures r.Err? ==> r.error == MissingColumns(frame.columns)
    ensures r.Ok? ==> forall key :: key in r.value ==>
              key != "" && IsTrimmed(key) && r.value[key] != "" && IsTrimmed(r.value[key])
  {
    ColumnIndexSpec(frame.columns, CuiKey);
    ColumnIndexSpec(frame.columns, DefKey);
    var colmap := ColumnIndex(frame.columns);
    if CuiKey !in colmap || DefKey !in colmap then Err(MissingColumns(frame.columns))
    else
      DefinitionMapClean(frame.rows, colmap[CuiKey], colmap[DefKey]);
      Ok(DefinitionMap(frame.rows, colmap[CuiKey], colmap[DefKey]))
  }

  /**
   * What a definitions file with a non-blank line yields: the text from its first non-blank
   * line on, parsed with the delimiter that line shows, turned into the map.
   */
  function DefinitionsOfLines(lines: seq<string>, parse: (string, char) -> Table): Result<map<string, string>, Error>
    requires !AllBlank(lines)
  {
    HeaderExists(lines);
    var h := FirstNonBlank(lines);
    DefinitionsFrom(parse(JoinLines(lines[h..]), DetectDelim(Strip(lines[h]))))
  }

  /**
   * read_mgdef_map on the file's lines: EmptyInput when every line is blank, otherwise
   * DefinitionsOfLines. `parse` stands for pd.read_csv(sep=delim, header=0, dtype=str,
   * keep_default_na=False).
   */
  method ReadDefinitions(lines: seq<string>, parse: (string, char) -> Table)
    returns (r: Result<map<string, string>, Error>)
    ensures AllBlank(lines) ==> r == Err(EmptyInput)
    ensures !AllBlank(lines) ==> r == DefinitionsOfLines(lines, parse)
    ensures r.Ok? ==> forall key :: key in r.value ==>
              key != "" && IsTrimmed(key) && r.value[key] != "" && IsTrimmed(r.value[key])
  {
    var found := FindHeader(lines);
    if found.Err? {
      return Err(found.error);
    }
    var idx := found.value;
    var headerLine := Strip(lines[idx]);
    var delim := DetectDelim(headerLine);
    var dataText := JoinLines(lines[idx..]);
    r := DefinitionsFrom(parse(dataText, delim));
  }

  // ---------------------------------------------------------------------------
  // What the map holds

  /** The row gives a CUI and a DEF that are both non-empty after stripping. */
  predicate DefinitionRowQualifies(row: seq<string>, ci: nat, di: nat) {
    CuiOf(row, ci) != "" && DefOf(row, di) != ""
  }

  /** Row `k` qualifies and no earlier qualifying row has its CUI. */
  predicate FirstDefinitionRow(rows: seq<seq<string>>, ci: nat, di: nat, k: int) {
    && 0 <= k < |rows| && DefinitionRowQualifies(rows[k], ci, di)
    && forall j :: 0 <= j < k && DefinitionRowQualifies(rows[j], ci, di) ==> CuiOf(rows[j], ci) != CuiOf(rows[k], ci)
  }

  /** The definition map holds a CUI exactly when some row qualifies with that CUI. */
  lemma DefinitionMapKeys(rows: seq<seq<string>>, ci: nat, di: nat)
    ensures forall key :: key in DefinitionMap(rows, ci, di) <==>
              exists k :: 0 <= k < |rows| && DefinitionRowQualifies(rows[k], ci, di) && CuiOf(rows[k], ci) == key
  {
    var ps := TrimmedPairs(rows, ci, di);
    forall key
      ensures key in DictOfPairs(ps) <==>
                exists k :: 0 <= k < |rows| && DefinitionRowQualifies(rows[k], ci, di) && CuiOf(rows[k], ci) == key
    {
      DictOfPairsKeys(ps, key);
      if key in DictOfPairs(ps) {
        var k :| 0 <= k < |ps| && Good(ps[k]) && ps[k].0 == key;
        assert DefinitionRowQualifies(rows[k], ci, di) && CuiOf(rows[k], ci) == key;
      }
      if exists k :: 0 <= k < |rows| && DefinitionRowQualifies(rows[k], ci, di) && CuiOf(rows[k], ci) == key {
        var k :| 0 <= k < |rows| && DefinitionRowQualifies(rows[k], ci, di) && CuiOf(rows[k], ci) == key;
        assert Good(ps[k]) && ps[k].0 == key;
      }
    }
  }

  /** First occurrence wins: a CUI maps to the DEF of the first row that qualifies with it. */
  lemma DefinitionMapFirstWins(rows: seq<seq<string>>, ci: nat, di: nat, k: nat)
    requires FirstDefinitionRow(rows, ci, di, k)
    ensures CuiOf(rows[k], ci) in DefinitionMap(rows, ci, di)
    ensures DefinitionMap(rows, ci, di)[CuiOf(rows[k], ci)] == DefOf(rows[k], di)
  {
    var ps := TrimmedPairs(rows, ci, di);
    assert FirstGoodAt(ps, k);
    DictOfPairsFirst(ps, k);
  }

  /** Every key and every value of the definition map is non-empty and already stripped. */
  lemma DefinitionMapClean(rows: seq<seq<string>>, ci: nat, di: nat)
    ensures forall key :: key in DefinitionMap(rows, ci, di) ==>
              key != "" && IsTrimmed(key) &&
              DefinitionMap(rows, ci, di)[key] != "" && IsTrimmed(DefinitionMap(rows, ci, di)[key])
  {
    var ps := TrimmedPairs(rows, ci, di);
    var m := DictOfPairs(ps);
    forall key | key in m
      ensures key != "" && IsTrimmed(key) && m[key] != "" && IsTrimmed(m[key])
    {
      DictOfPairsFrom(ps, key);
    }
  }

  /** Filter, deduplicate and build the map, on the stripped pairs. */
  function DictOfPairs(ps: seq<Pair>): map<string, string> {
    ToDict(DropLaterDuplicates(NonEmptyPairs(ps), {}))
  }

  lemma DictOfPairsKeys(ps: seq<Pair>, key: string)
    ensures key in DictOfPairs(ps) <==> exists k :: 0 <= k < |ps| && Good(ps[k]) && ps[k].0 == key
  {
    var qs := NonEmptyPairs(ps);
    var ds := DropLaterDuplicates(qs, {});
    DropLaterDuplicatesFirst(qs, {});
    NonEmptyPairsFirst(ps, key);
    if key in ToDict(ds) {
      var p :| p in ds && p.0 == key;
      var i :| 0 <= i < |ds| && ds[i] == p;
    }
    if First(qs, key).Some? {
      DropLaterDuplicatesComplete(qs, {}, key);
      var i :| 0 <= i < |ds| && ds[i].0 == key;
    }
  }

  lemma DictOfPairsFirst(ps: seq<Pair>, k: int)
    requires FirstGoodAt(ps, k)
    ensures ps[k].0 in DictOfPairs(ps) && DictOfPairs(ps)[ps[k].0] == ps[k].1
  {
    var qs := NonEmptyPairs(ps);
    var ds := DropLaterDuplicates(qs, {});
    ToDictDistinct(ds);
    NonEmptyPairsFirstAt(ps, k);
    DropLaterDuplicatesComplete(qs, {}, ps[k].0);
    DropLaterDuplicatesFirst(qs, {});
    var i :| 0 <= i < |ds| && ds[i].0 == ps[k].0;
  }

  lemma DictOfPairsFrom(ps: seq<Pair>, key: string)
    requires key in DictOfPairs(ps)
    ensures exists k :: 0 <= k < |ps| && Good(ps[k]) && ps[k] == (key, DictOfPairs(ps)[key])
  {
    var ds := DropLaterDuplicates(NonEmptyPairs(ps), {});
    var p :| p in ds && p.0 == key && p.1 == ToDict(ds)[key];
    var k :| 0 <= k < |ps| && ps[k] == p;
  }

  /** The value of the first pair with CUI `key`. */
  function First(ps: seq<Pair>, key: string): Option<string> {
    if |ps| == 0 then None
    else if ps[0].0 == key then Some(ps[0].1)
    else First(ps[1..], key)
  }

  predicate FirstGoodAt(ps: seq<Pair>, k: int) {
    && 0 <= k < |ps| && Good(ps[k])
    && forall j :: 0 <= j < k && Good(ps[j]) ==> ps[j].0 != ps[k].0
  }

  /** After the filter, a CUI has a first pair exactly when some good pair has that CUI. */
  lemma {:induction false} NonEmptyPairsFirst(ps: seq<Pair>, key: string)
    ensures First(NonEmptyPairs(ps), key).Some? <==> exists k :: 0 <= k < |ps| && Good(ps[k]) && ps[k].0 == key
  {
    if |ps| > 0 {
      NonEmptyPairsFirst(ps[1..], key);
      assert forall k :: 1 <= k < |ps| ==> ps[k] == ps[1..][k - 1];
      if Good(ps[0]) {
        assert NonEmptyPairs(ps) == [ps[0]] + NonEmptyPairs(ps[1..]);
        assert ps[0].0 != key ==> First(NonEmptyPairs(ps), key) == First(NonEmptyPairs(ps[1..]), key);
      } else {
        assert NonEmptyPairs(ps) == NonEmptyPairs(ps[1..]);
      }
    }
  }

  /** After the filter, the first pair of a CUI is its first good pair. */
  lemma {:induction false} NonEmptyPairsFirstAt(ps: seq<Pair>, k: int)
    requires FirstGoodAt(ps, k)
    ensures First(NonEmptyPairs(ps), ps[k].0) == Some(ps[k].1)
  {
    if k == 0 {
      assert NonEmptyPairs(ps) == [ps[0]] + NonEmptyPairs(ps[1..]);
    } else {
      assert FirstGoodAt(ps[1..], k - 1) by {
        assert forall j :: 0 <= j < k - 1 ==> ps[1..][j] == ps[j + 1];
      }
      NonEmptyPairsFirstAt(ps[1..], k - 1);
      if Good(ps[0]) {
        assert NonEmptyPairs(ps) == [ps[0]] + NonEmptyPairs(ps[1..]);
      } else {
        assert NonEmptyPairs(ps) == NonEmptyPairs(ps[1..]);
      }
    }
  }

  /**
   * Deduplication keeps, for each CUI not already seen, exactly one pair, and it is the
   * first pair of that CUI.
   */
  lemma {:induction false} DropLaterDuplicatesFirst(ps: seq<Pair>, seen: set<string>)
    ensures forall i :: 0 <= i < |DropLaterDuplicates(ps, seen)| ==>
              First(ps, DropLaterDuplicates(ps, seen)[i].0) == Some(DropLaterDuplicates(ps, seen)[i].1)
  {
    if |ps| > 0 {
      var k0 := ps[0].0;
      if k0 in seen {
        DropLaterDuplicatesFirst(ps[1..], seen);
        assert DropLaterDuplicates(ps, seen) == DropLaterDuplicates(ps[1..], seen);
      } else {
        var rest := DropLaterDuplicates(ps[1..], seen + {k0});
        DropLaterDuplicatesFirst(ps[1..], seen + {k0});
        var qs := [ps[0]] + rest;
        assert DropLaterDuplicates(ps, seen) == qs;
        forall i | 0 <= i < |qs| ensures First(ps, qs[i].0) == Some(qs[i].1) {
          if i > 0 {
            assert qs[i] == rest[i - 1] && rest[i - 1] in rest;
          }
        }
      }
    }
  }

  lemma {:induction false} DropLaterDuplicatesComplete(ps: seq<Pair>, seen: set<string>, key: string)
    requires key !in seen && First(ps, key).Some?
    ensures exists i :: 0 <= i < |DropLaterDuplicates(ps, seen)| && DropLaterDuplicates(ps, seen)[i].0 == key
  {
    var k0 := ps[0].0;
    if k0 in seen {
      DropLaterDuplicatesComplete(ps[1..], seen, key);
      assert DropLaterDuplicates(ps, seen) == DropLaterDuplicates(ps[1..], seen);
    } else {
      var rest := DropLaterDuplicates(ps[1..], seen + {k0});
      var qs := [ps[0]] + rest;
      assert DropLaterDuplicates(ps, seen) == qs;
      if key != k0 {
        DropLaterDuplicatesComplete(ps[1..], seen + {k0}, key);
        var i :| 0 <= i < |rest| && rest[i].0 == key;
        assert qs[i + 1].0 == key;
      } else {
        assert qs[0].0 == key;
      }
    }
  }

  /** With distinct CUIs, the map sends every pair's CUI to that pair's DEF. */
  lemma {:induction false} ToDictDistinct(ps: seq<Pair>)
    requires forall i, j :: 0 <= i < j < |ps| ==> ps[i].0 != ps[j].0
    ensures forall k :: 0 <= k < |ps| ==> ToDict(ps)[ps[k].0] == ps[k].1
  {
    if |ps| > 0 {
      var init := ps[..|ps| - 1];
      ToDictDistinct(init);
      assert forall k :: 0 <= k < |init| ==> init[k] == ps[k];
    }
  }
}
