# OMIM–MedGen disease database builder, modelled in Dafny

`make_omim_disease_database.py` joins two MedGen reference files into a list of JSON
records: the HPO/OMIM mapping file (one row per OMIM disease, with its MIM number, name,
OMIM concept identifier and HPO concept identifier) and the MGDEF definitions file (a
concept identifier, CUI, and its definition text, DEF). This project models the script's
logic over the files' decompressed lines and proves what it guarantees:

- `Delimiter` — delimiter detection from a header line: tab, else comma, else pipe, else tab.
- `Text` — the string operations the script uses, with Python's meaning: `str.strip()` over
  exactly the characters `str.isspace()` accepts, the blank-line test, `lstrip('#')`,
  `split`, `"\n".join` and `lower()`.
- `Tables` — a parsed table (column names and rows of string cells) and the
  case-insensitive column lookup both readers build with a dict comprehension.
- `Header` — the scan for the first non-blank line (the header), the mapping header's
  `#`-marker removal and its split into trimmed column names.
- `Definitions` — `read_mgdef_map`: header scan, column lookup, strip, filter, first-wins
  deduplication by CUI and the CUI → DEF dictionary.
- `Mapping` — `read_medgen_mapping`: header scan, header cleaning, the empty-data case and
  cell stripping.
- `Join` — `build_list_of_dicts`: the loop over mapping rows with its seen-set, written as
  a method with loop invariants and proved equal to a recursive specification `JoinRows`,
  about which the lemmas are stated.
- `Pipeline` — `main` without its I/O: definitions, then mapping, then the join.

The pandas CSV tokeniser is a function parameter of each reader (`parse`): the model
fixes what the script does before and after it, not how pandas splits fields. For the
definitions file it yields a table whose first line gave the column names. For the mapping
file it yields ragged rows of fields.

Where the code and its own comments disagree, the model follows the code. The comment
at line 173 and the docstring say `medgen_concept_id` prefers `HPO_CUI`, but line 174 sets
it to `OMIM_CUI`, which is also the deduplication key. The HPO CUI fallback at lines 180-181
is dead: every stored definition is non-empty and a missing key gives `"NA"`, so the
fallback's condition never holds (`Join.FallbackNeverFires`).

## Model

| member | source | states |
|---|---|---|
| Delimiter.DetectDelim | make_omim_disease_database.py:24-33 | the delimiter is tab when the header has a tab; comma when it has a comma but no tab; pipe when it has a pipe but neither; tab otherwise — and it occurs in the header unless none of the three does |
| Delimiter.DetectDelimIsFirstPresent | make_omim_disease_database.py:24-33 | detection picks the first of tab, comma, pipe (in that order of preference) present in the header, falling back to tab |
| Text.TrimLeft | make_omim_disease_database.py:52 | lstrip: the result is a suffix, every removed character is whitespace, and the result does not start with whitespace |
| Text.TrimRight | make_omim_disease_database.py:52 | rstrip: the result is a prefix, every removed character is whitespace, and the result does not end with whitespace |
| Text.Strip | make_omim_disease_database.py:52 | strip: the result has no whitespace at either end and is no longer than the input |
| Text.StripRemovesOnlyEnds | make_omim_disease_database.py:52 | strip cuts off a whitespace-only prefix and suffix and keeps the rest contiguous and unchanged |
| Text.TrimLeftRemovesSpace | make_omim_disease_database.py:52 | everything lstrip removes is whitespace |
| Text.TrimRightRemovesSpace | make_omim_disease_database.py:52 | everything rstrip removes is whitespace |
| Text.BlankIffAllSpace | make_omim_disease_database.py:47 | a line is blank exactly when all of its characters are whitespace |
| Text.StripEmptyIffAllSpace | make_omim_disease_database.py:47 | `s.strip() == ""` exactly when all characters of s are whitespace |
| Text.IsBlank | make_omim_disease_database.py:47 | definition (no contract of its own): every character is whitespace, written recursively; BlankIsStripEmpty proves it is exactly `s.strip() == ""` and BlankIffAllSpace that it is "all whitespace" |
| Text.BlankIsStripEmpty | make_omim_disease_database.py:47 | the model's blank test is exactly `s.strip() == ""` |
| Text.AllSpaceConcat | make_omim_disease_database.py:112 | a concatenation is all whitespace exactly when both parts are |
| Text.TrimLeftChar | make_omim_disease_database.py:103 | `lstrip('#')`: the result is a suffix, every removed character is '#', and the result does not start with '#' |
| Text.Split | make_omim_disease_database.py:108 | `split(d)` gives one piece more than there are d's, and no piece contains d |
| Text.JoinSplit | make_omim_disease_database.py:108 | joining the pieces of a split with the same separator gives back the original string |
| Text.JoinLines | make_omim_disease_database.py:55 | definition (no contract of its own): `"\n".join(lines)`, also used at line 112; JoinLinesBlank and JoinAllSpace characterise it for the blank-data test, and JoinSplit shows the join undoes a split |
| Text.JoinLinesBlank | make_omim_disease_database.py:112-113 | the data lines joined with line feeds strip to "" exactly when every data line is blank |
| Text.JoinAllSpace | make_omim_disease_database.py:112 | lines joined with line feeds are all whitespace exactly when every line is |
| Text.Lower | make_omim_disease_database.py:66 | `lower()` keeps the length (ASCII letters only; see Left out) |
| Tables.ColumnIndex | make_omim_disease_database.py:66 | every key of the lower-cased column map names a column whose lower-cased name is that key |
| Tables.ColumnIndexSpec | make_omim_disease_database.py:66-67 | a key is in the column map exactly when some column has that lower-cased name, and it maps to the last such column, as a dict comprehension overwrites earlier entries |
| Tables.Get | make_omim_disease_database.py:151-153 | definition (no contract of its own): the cell of the column the lower-cased name maps to, "" without one; GetSpec states its meaning for a row as wide as the header |
| Tables.GetSpec | make_omim_disease_database.py:149-153 | `get(row, name)` is "" when no column's lower-cased name is `name.lower()`, and otherwise the cell of the last such column |
| Header.FirstNonBlank | make_omim_disease_database.py:46-48 | the index is at most the number of lines, every earlier line is blank, and the line at the index (if any) is not blank |
| Header.FindHeader | make_omim_disease_database.py:46-50 | the while loop stops at the first non-blank line; it fails with EmptyInput exactly when every line is blank |
| Header.HeaderIndexIsFirstNonBlank | make_omim_disease_database.py:95-99 | a line is the header line exactly when it is the first non-blank line |
| Header.CleanHeader | make_omim_disease_database.py:101-105 | the cleaned header has no whitespace at either end |
| Header.CleanHeaderSpec | make_omim_disease_database.py:101-105 | a stripped header not starting with '#' is used as is; one starting with '#' loses its whole leading run of '#' and is stripped again |
| Header.HashRun | make_omim_disease_database.py:103 | `lstrip('#')` on a line that starts with '#' removes exactly the maximal leading run of '#' |
| Header.HeaderColumns | make_omim_disease_database.py:107-108 | one column more than the header has delimiters; each column is the stripped piece of the split and contains no delimiter |
| Header.StripKeeps | make_omim_disease_database.py:108 | stripping adds no characters, so a stripped column still lacks the delimiter |
| Definitions.CellText | make_omim_disease_database.py:74-75 | definition (no contract of its own): the text of a frame cell, with the assumed "nan" for a field a short row lacks (see Left out); TrimmedPairs strips it |
| Definitions.TrimmedPairs | make_omim_disease_database.py:74-75 | one (CUI, DEF) pair per row, each part the stripped cell text |
| Definitions.NonEmptyPairs | make_omim_disease_database.py:76 | the filter keeps only pairs with a non-empty CUI and DEF, all taken from the input |
| Definitions.DropLaterDuplicates | make_omim_disease_database.py:79 | deduplication keeps only input pairs, no two with the same CUI |
| Definitions.DropLaterDuplicatesFirst | make_omim_disease_database.py:79 | every pair kept by deduplication is the first pair of its CUI |
| Definitions.DropLaterDuplicatesComplete | make_omim_disease_database.py:79 | every CUI that has a pair keeps one |
| Definitions.ToDict | make_omim_disease_database.py:81 | every pair's CUI is a key of the dictionary, and every key's value comes from a pair with that CUI |
| Definitions.ToDictDistinct | make_omim_disease_database.py:81 | with distinct CUIs, the dictionary sends each pair's CUI to that pair's DEF |
| Definitions.NonEmptyPairsFirst | make_omim_disease_database.py:76 | after the filter a CUI still has a pair exactly when some non-empty pair has that CUI |
| Definitions.NonEmptyPairsFirstAt | make_omim_disease_database.py:76-79 | after the filter, a CUI's first pair is its first non-empty pair of the input |
| Definitions.DictOfPairsKeys | make_omim_disease_database.py:76-81 | a CUI is a key exactly when some pair with that CUI has both parts non-empty |
| Definitions.DictOfPairsFirst | make_omim_disease_database.py:78-81 | a CUI's value is the DEF of its first pair with both parts non-empty |
| Definitions.DictOfPairsFrom | make_omim_disease_database.py:81 | every entry of the dictionary is some non-empty input pair |
| Definitions.DefinitionMap | make_omim_disease_database.py:73-81 | definition (no contract of its own): strip, filter, keep-first deduplication and dict of the CUI and DEF columns; DefinitionMapKeys, DefinitionMapFirstWins and DefinitionMapClean characterise it completely |
| Definitions.DefinitionMapKeys | make_omim_disease_database.py:73-81 | a CUI is a key of the definition map exactly when some row has that stripped CUI and a non-empty stripped DEF |
| Definitions.DefinitionMapFirstWins | make_omim_disease_database.py:78-81 | the definition of a CUI is the stripped DEF of the first row that qualifies with that CUI |
| Definitions.DefinitionMapClean | make_omim_disease_database.py:73-76 | every key and value of the map is non-empty and stripped |
| Definitions.DefinitionsFrom | make_omim_disease_database.py:65-81 | fails with the columns found exactly when no column lower-cases to "cui" or none to "def"; otherwise every key and value is non-empty and stripped |
| Definitions.DefinitionsOfLines | make_omim_disease_database.py:44-81 | definition (requires a non-blank line; no contract of its own): the text from the first non-blank line on, parsed with that stripped line's delimiter, then DefinitionsFrom; ReadDefinitions is proved to return it |
| Definitions.ReadDefinitions | make_omim_disease_database.py:44-82 | EmptyInput when every line is blank; otherwise the map built from the text starting at the first non-blank line, parsed with that line's delimiter; its keys and values are non-empty and stripped |
| Mapping.CleanRow | make_omim_disease_database.py:128-130 | a row gets one cell per column: the stripped field, or "" where the field is missing |
| Mapping.CleanRows | make_omim_disease_database.py:128-130 | every record is cleaned the same way, and the order is kept |
| Mapping.CleanRowsClean | make_omim_disease_database.py:128-130 | after cleaning every row has one stripped cell per column |
| Mapping.TableAfterHeader | make_omim_disease_database.py:101-131 | definition (no contract of its own): header cleaning, delimiter, header columns, stripped data text, and either no rows or the cleaned parsed rows; TableAfterHeaderRows and TableAfterHeaderClean characterise it |
| Mapping.TableAfterHeaderRows | make_omim_disease_database.py:107-126 | the columns are the cleaned header's; no rows when every line after the header is blank; otherwise the cleaned rows parsed from the stripped data text with the header's delimiter |
| Mapping.TableAfterHeaderClean | make_omim_disease_database.py:128-131 | every row of the mapping table has one stripped cell per column |
| Mapping.MappingTable | make_omim_disease_database.py:95-131 | definition (requires a non-blank line; no contract of its own): TableAfterHeader of the first non-blank line and the lines after it; ReadMapping is proved to return it |
| Mapping.ReadMapping | make_omim_disease_database.py:93-131 | fails with EmptyInput exactly when every line is blank, and otherwise returns the table built from the first non-blank line and the lines after it |
| Join.DiseaseInfo | make_omim_disease_database.py:178-181 | "NA" for an OMIM CUI without a definition; its definition when that is non-empty; the HPO CUI lookup only when the definition is empty and the HPO CUI is not |
| Join.LookupOrNA | make_omim_disease_database.py:178 | definition (no contract of its own): `defs.get(key, "NA")`; DiseaseInfo's contract states its cases |
| Join.FallbackNeverFires | make_omim_disease_database.py:178-181 | when no definition is empty, the disease information is the OMIM CUI's definition or "NA", and it is never empty |
| Join.IsBlankRow | make_omim_disease_database.py:158 | definition (no contract of its own): every cell is blank, which BlankIsStripEmpty makes `str(x).strip() == ""` per cell |
| Join.MakeRecord | make_omim_disease_database.py:183-189 | definition (no contract of its own): the record literal — MIM number as `_id` and `omim_id`, OMIM name, OMIM CUI as concept identifier, DiseaseInfo; JoinRowsShape states its shape |
| Join.JoinRows | make_omim_disease_database.py:156-190 | definition (no contract of its own): the pass as a recursion over the rows from the back; BuildRecords is proved to return it, and JoinRowsMembersFirst, JoinRowsFirstMembers, JoinRowsDistinct, JoinRowsOrder and JoinRowsPrefix characterise it |
| Join.BuildRecords | make_omim_disease_database.py:146-192 | the loop with its seen-set returns JoinRows, with no concept identifier twice and no more records than rows |
| Join.JoinRowsStep | make_omim_disease_database.py:156-190 | one iteration appends the row's record exactly when the row qualifies and its OMIM CUI is not yet seen |
| Join.ConceptIdsAppend | make_omim_disease_database.py:172 | appending a record adds exactly its concept identifier to the seen-set |
| Join.QualifyingCuisSpec | make_omim_disease_database.py:158-168 | a CUI is a qualifying one exactly when some non-blank row has a MIM number and that OMIM CUI |
| Join.JoinRowsConceptIds | make_omim_disease_database.py:170-172 | after the pass the seen-set is exactly the OMIM CUIs of the qualifying rows |
| Join.JoinRowsLength | make_omim_disease_database.py:156-190 | the output has no more records than the table has rows |
| Join.JoinRowsDistinct | make_omim_disease_database.py:170-174 | no two records share a concept identifier |
| Join.FirstMappingRowPrefix | make_omim_disease_database.py:170-172 | whether a row is the first of its OMIM CUI depends only on the rows before it |
| Join.JoinRowsMembersFirst | make_omim_disease_database.py:156-190 | every output record is the record of a qualifying row that no earlier qualifying row shares its OMIM CUI with |
| Join.JoinRowsFirstMembers | make_omim_disease_database.py:156-190 | every qualifying row whose OMIM CUI no earlier qualifying row has contributes its record |
| Join.JoinRowsShape | make_omim_disease_database.py:183-189 | every record has its MIM number as `_id` and `omim_id`, a non-empty MIM number and concept identifier, and non-empty disease information when no definition is empty |
| Join.JoinRowsAllShaped | make_omim_disease_database.py:183-189 | the same, for all records at once |
| Join.JoinRowsPrefix | make_omim_disease_database.py:190 | the pass only appends: its output on the first n rows is a prefix of its output on all rows |
| Join.JoinRowsOrder | make_omim_disease_database.py:156-190 | the output keeps row order: when rows i < j are each the first of their OMIM CUI, the record of row i comes before the record of row j |
| Join.ColumnKeys | make_omim_disease_database.py:161-164 | the lower-cased names looked up are "mim_number", "omim_name", "omim_cui" and "hpo_cui" |
| Join.ExampleColumnIndex | make_omim_disease_database.py:149 | the header MIM_number, OMIM_name, OMIM_CUI, HPO_CUI maps its lower-cased names to positions 0 to 3 |
| Join.JoinExample | make_omim_disease_database.py:146-192 | the row 100050, Example Disease, C001, H001 with definition C001 → Some disease gives exactly one record, with `_id` and `omim_id` 100050 and disease information "Some disease" |
| Pipeline.BuildDatabase | make_omim_disease_database.py:195-212 | a reader error stops the run (definitions first); otherwise the records are JoinRows of the mapping table and the definition map, with distinct concept identifiers, `_id` equal to `omim_id`, and non-empty identifiers and disease information |

## Left out

- Reading the gzip files, `os.path.exists` and the `FileNotFoundError` (lines 19-21, 41-42, 90-91): the model takes each file's decoded lines as input. UTF-8 decoding with replacement characters is not modelled.
- The pandas CSV tokeniser (lines 56-63, 118-126) is a function parameter. Quoting, escaping and the tokeniser's own errors are not modelled. For the mapping file, a row is cut or padded to the header's width. For the definitions file, a field missing from a short row is ASSUMED to read as the text "nan" (`Definitions.MissingCell`): a NaN that `.astype(str)` turns into "nan". The script text does not settle this; if pandas left `None` there, the cell would read "None". Either way such a cell is non-empty after stripping, so the row would pass the filter at line 76 with that text.
- Duplicate column names: pandas renames duplicate names in a definitions header and rejects them in the mapping header. The model keeps columns by position, and the last column with a given lower-cased name wins.
- `json.dump`, `argparse` and `print` (lines 196-218): output formatting and the command line are not modelled. `Pipeline.BuildDatabase` returns the records that would be written.
- Text.Lower: only ASCII letters are lower-cased. No looked-up name ("cui", "def", "mim_number", "omim_name", "omim_cui", "hpo_cui") contains a "k". The Kelvin sign is the only non-ASCII character that Python lower-cases to a single ASCII letter, a "k". So the lookups give the same result.
- Python exceptions become `Result` errors: `EmptyInput` for lines 49-50 and 98-99, and `MissingColumns` with the columns found for lines 67-68.
