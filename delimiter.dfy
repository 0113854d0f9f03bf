/** The delimiter rule both readers apply to their header line. */
module Delimiter {

  const Tab: char := '\t'
  const Comma: char := ','
  const Pipe: char := '|'

  /** The candidate delimiters, most preferred first. */
  const Preference: seq<char> := [Tab, Comma, Pipe]

  /**
   * detect_delim_from_header: tab if the header holds a tab, else comma if it holds
   * a comma, else pipe if it holds a pipe, and tab when it holds none of them.
   */
  function DetectDelim(header: string): (d: char)
    ensures d in Preference
    ensures d == Tab <==> Tab in header || (Comma !in header && Pipe !in header)
    ensures d == Comma <==> Tab !in header && Comma in header
    ensures d == Pipe <==> Tab !in header && Comma !in header && Pipe in header
    ensures d in header || forall c :: c in Preference ==> c !in header
  {
    if Tab in header then Tab
    else if Comma in header then Comma
    else if Pipe in header then Pipe
    else Tab
  }

  /** The first of `candidates` that occurs in `s`, or `fallback` when none does. */
  function FirstPresent(candidates: seq<char>, s: string, fallback: char): (d: char)
    ensures d in candidates || d == fallback
    ensures (forall c :: c in candidates ==> c !in s) ==> d == fallback
    ensures (exists c :: c in candidates && c in s) ==>
              exists k :: 0 <= k < |candidates| && candidates[k] == d && d in s &&
                forall j :: 0 <= j < k ==> candidates[j] !in s
  {
    if |candidates| == 0 then fallback
    else if candidates[0] in s then candidates[0]
    else
      var d := FirstPresent(candidates[1..], s, fallback);
      assert forall k :: 1 <= k < |candidates| ==> candidates[k] == candidates[1..][k - 1];
      d
  }

  /** The rule is "the first candidate, in order of preference, that the header holds; tab by default". */
  lemma DetectDelimIsFirstPresent(header: string)
    ensures DetectDelim(header) == FirstPresent(Preference, header, Tab)
  {
    var rest := Preference[1..];
    assert rest == [Comma, Pipe] && rest[1..] == [Pipe] && rest[1..][1..] == [];
    if Tab !in header {
      assert FirstPresent(Preference, header, Tab) == FirstPresent(rest, header, Tab);
      if Comma !in header {
        assert FirstPresent(rest, header, Tab) == FirstPresent(rest[1..], header, Tab);
      }
    }
  }
}
