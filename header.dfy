/** Locating and cleaning the header line, as both readers do. */
module Header {
  import opened Wrappers
  import opened Text
  import opened Delimiter
  import opened Tables

  /** `h` is the first line that is not blank. */
  predicate IsHeaderIndex(lines: seq<string>, h: int) {
    0 <= h < |lines| && !IsBlank(lines[h]) && forall k {:trigger IsBlank(lines[k])} :: 0 <= k < h ==> IsBlank(lines[k])
  }

  /** The index of the first line that is not blank, or |lines| when there is none. */
  function FirstNonBlank(lines: seq<string>): (h: nat)
    ensures h <= |lines|
    ensures forall k {:trigger IsBlank(lines[k])} :: 0 <= k < h ==> IsBlank(lines[k])
    ensures h < |lines| ==> !IsBlank(lines[h])
  {
    if |lines| == 0 || !IsBlank(lines[0]) then 0
    else
      var h := 1 + FirstNonBlank(lines[1..]);
      assert forall k :: 1 <= k < |lines| ==> lines[k] == lines[1..][k - 1];
      h
  }

  /**
   * The `while idx < len(lines) and lines[idx].strip() == ""` scan: the index of the first
   * line that is not blank, or EmptyInput when every line is blank.
   */
  method FindHeader(lines: seq<string>) returns (r: Result<nat, Error>)
    ensures r.Ok? ==> r.value == FirstNonBlank(lines) < |lines|
    ensures r.Err? <==> AllBlank(lines)
    ensures r.Err? ==> r.error == EmptyInput
  {
    var idx := 0;
    while idx < |lines| && IsBlank(lines[idx])
      invariant 0 <= idx <= |lines|
      invariant forall k {:trigger IsBlank(lines[k])} :: 0 <= k < idx ==> IsBlank(lines[k])
    {
      idx := idx + 1;
    }
    if idx >= |lines| {
      return Err(EmptyInput);
    }
    HeaderIndexIsFirstNonBlank(lines, idx);
    return Ok(idx);
  }

  predicate AllHash(s: string) {
    forall i :: 0 <= i < |s| ==> s[i] == '#'
  }

  /**
   * The mapping file's header text: the line stripped and, when it then starts with '#',
   * the whole leading run of '#' removed and the rest stripped again (see CleanHeaderSpec).
   */
  function CleanHeader(line: string): (r: string)
    ensures IsTrimmed(r)
  {
    var h := Strip(line);
    if |h| > 0 && h[0] == '#' then Strip(TrimLeftChar(h, '#')) else h
  }

  /**
   * A stripped header that does not start with '#' is used as it is; one that does loses
   * its whole leading run of '#' and the whitespace that follows the run.
   */
  lemma CleanHeaderSpec(line: string)
    ensures var h := Strip(line); |h| == 0 || h[0] != '#' ==> CleanHeader(line) == h
    ensures var h := Strip(line); |h| > 0 && h[0] == '#' ==>
              exists k :: 1 <= k <= |h| && AllHash(h[..k]) && (k == |h| || h[k] != '#') &&
                CleanHeader(line) == Strip(h[k..])
  {
    var h := Strip(line);
    if |h| > 0 && h[0] == '#' {
      var k := HashRun(h);
      assert CleanHeader(line) == Strip(h[k..]);
    }
  }

  /** The leading run of '#' of a string that starts with one: TrimLeftChar removes exactly it. */
  lemma HashRun(h: string) returns (k: nat)
    requires |h| > 0 && h[0] == '#'
    ensures 1 <= k <= |h| && AllHash(h[..k]) && (k == |h| || h[k] != '#')
    ensures TrimLeftChar(h, '#') == h[k..]
  {
    var rest := TrimLeftChar(h, '#');
    k := |h| - |rest|;
    assert AllHash(h[..k]);
    assert k == |h| || h[k] == rest[0];
  }

  /**
   * `[c.strip() for c in clean.split(delim)]` with the inferred delimiter: one column more
   * than there are delimiters, each trimmed and free of the delimiter.
   */
  function HeaderColumns(clean: string): (cols: seq<string>)
    ensures var d := DetectDelim(clean);
      && |cols| == Count(clean, d) + 1
      && (forall k :: 0 <= k < |cols| ==> IsTrimmed(cols[k]) && d !in cols[k])
      && (forall k :: 0 <= k < |cols| ==> cols[k] == Strip(Split(clean, d)[k]))
  {
    var pieces := Split(clean, DetectDelim(clean));
    var cols := seq(|pieces|, k requires 0 <= k < |pieces| => Strip(pieces[k]));
    forall k | 0 <= k < |cols| ensures DetectDelim(clean) !in cols[k] {
      StripKeeps(pieces[k]);
    }
    cols
  }

  /** Every character of a stripped string comes from the original. */
  lemma StripKeeps(s: string)
    ensures forall c :: c in Strip(s) ==> c in s
  {
    var t := TrimLeft(s);
    var r := TrimRight(t);
    forall c | c in r ensures c in s {
      var m :| 0 <= m < |r| && r[m] == c;
      assert t[m] == c;
      assert s[|s| - |t| + m] == c;
    }
  }

  /** A file with a non-blank line has a header line. */
  lemma HeaderExists(lines: seq<string>)
    requires !AllBlank(lines)
    ensures FirstNonBlank(lines) < |lines|
  {
  }

  /** A line is the header line exactly when it is the first non-blank one. */
  lemma HeaderIndexIsFirstNonBlank(lines: seq<string>, h: int)
    ensures IsHeaderIndex(lines, h) <==> h == FirstNonBlank(lines) < |lines|
  {
  }
}
