/**
 * The string operations the script relies on, with Python's meaning:
 * str.strip(), str.lstrip(ch), str.split(sep), sep.join(parts) and str.lower().
 */
module Text {

  /** Exactly the characters for which Python's str.isspace() holds; str.strip() removes these. */
  predicate IsSpace(c: char) {
    || ('\t' <= c <= '\r')             // tab, line feed, vertical tab, form feed, carriage return
    || ('\U{1C}' <= c <= ' ')          // the four information separators and the space
    || c == '\U{85}' || c == '\U{A0}' || c == '\U{1680}'
    || ('\U{2000}' <= c <= '\U{200A}')
    || c == '\U{2028}' || c == '\U{2029}' || c == '\U{202F}' || c == '\U{205F}' || c == '\U{3000}'
  }

  predicate AllSpace(s: string) {
    forall i :: 0 <= i < |s| ==> IsSpace(s[i])
  }

  /** No whitespace at either end: what str.strip() returns. */
  predicate IsTrimmed(s: string) {
    s == [] || (!IsSpace(s[0]) && !IsSpace(s[|s| - 1]))
  }

  /** `r` is `s` with a whitespace-only prefix and a whitespace-only suffix cut off. */
  predicate IsInnerPart(s: string, r: string) {
    exists i :: 0 <= i <= |s| - |r| && r == s[i..i + |r|] && AllSpace(s[..i]) && AllSpace(s[i + |r|..])
  }

  /** str.lstrip() */
  function TrimLeft(s: string): (r: string)
    ensures |r| <= |s| && r == s[|s| - |r|..]
    ensures forall i :: 0 <= i < |s| - |r| ==> IsSpace(s[i])
    ensures r == [] || !IsSpace(r[0])
  {
    if |s| > 0 && IsSpace(s[0]) then TrimLeft(s[1..]) else s
  }

  /** str.rstrip() */
  function TrimRight(s: string): (r: string)
    ensures |r| <= |s| && r == s[..|r|]
    ensures forall i :: |r| <= i < |s| ==> IsSpace(s[i])
    ensures r == [] || !IsSpace(r[|r| - 1])
  {
    if |s| > 0 && IsSpace(s[|s| - 1]) then TrimRight(s[..|s| - 1]) else s
  }

  /** str.strip(): the result has no whitespace at either end (see StripRemovesOnlyEnds). */
  function Strip(s: string): (r: string)
    ensures IsTrimmed(r)
    ensures |r| <= |s|
  {
    TrimRight(TrimLeft(s))
  }

  /** str.strip() removes a whitespace prefix and a whitespace suffix and keeps everything between. */
  lemma StripRemovesOnlyEnds(s: string)
    ensures IsInnerPart(s, Strip(s))
  {
    var t := TrimLeft(s);
    var r := TrimRight(t);
    var i := |s| - |t|;
    TrimLeftRemovesSpace(s);
    TrimRightRemovesSpace(t);
    assert t == s[i..] && r == t[..|r|];
    assert s[i..][..|r|] == s[i..i + |r|];
    assert s[i + |r|..] == t[|r|..];
  }

  lemma TrimLeftRemovesSpace(s: string)
    ensures AllSpace(s[..|s| - |TrimLeft(s)|])
  {
    var prefix := s[..|s| - |TrimLeft(s)|];
    forall j | 0 <= j < |prefix| ensures IsSpace(prefix[j]) {
      assert prefix[j] == s[j];
    }
  }

  lemma TrimRightRemovesSpace(s: string)
    ensures AllSpace(s[|TrimRight(s)|..])
  {
    var suffix := s[|TrimRight(s)|..];
    forall j | 0 <= j < |suffix| ensures IsSpace(suffix[j]) {
      assert suffix[j] == s[|TrimRight(s)| + j];
    }
  }

  /**
   * `line.strip() == ""`, the script's test for a blank line or cell, stated character by
   * character: every character is whitespace (BlankIsStripEmpty proves the two agree).
   */
  predicate IsBlank(s: string) {
    |s| == 0 || (IsSpace(s[0]) && IsBlank(s[1..]))
  }

  /** Every line is blank. */
  predicate AllBlank(lines: seq<string>) {
    forall k {:trigger IsBlank(lines[k])} :: 0 <= k < |lines| ==> IsBlank(lines[k])
  }

  /** A blank string is one made of whitespace only. */
  lemma {:induction false} BlankIffAllSpace(s: string)
    ensures IsBlank(s) <==> AllSpace(s)
  {
    if |s| > 0 {
      BlankIffAllSpace(s[1..]);
      assert s == [s[0]] + s[1..];
      AllSpaceConcat([s[0]], s[1..]);
    }
  }

  /** str.strip() leaves nothing exactly when the string is whitespace only. */
  lemma StripEmptyIffAllSpace(s: string)
    ensures Strip(s) == "" <==> AllSpace(s)
  {
    var t := TrimLeft(s);
    if AllSpace(s) {
      assert t == [];
    }
    if Strip(s) == "" {
      assert AllSpace(t[0..]);
      assert s == s[..|s| - |t|] + t;
      AllSpaceConcat(s[..|s| - |t|], t);
    }
  }

  /** IsBlank is exactly `s.strip() == ""`. */
  lemma BlankIsStripEmpty(s: string)
    ensures IsBlank(s) <==> Strip(s) == ""
  {
    BlankIffAllSpace(s);
    StripEmptyIffAllSpace(s);
  }

  lemma AllSpaceConcat(a: string, b: string)
    ensures AllSpace(a + b) <==> AllSpace(a) && AllSpace(b)
  {
    if AllSpace(a + b) {
      forall i | 0 <= i < |a| ensures IsSpace(a[i]) {
        assert (a + b)[i] == a[i];
      }
      forall i | 0 <= i < |b| ensures IsSpace(b[i]) {
        assert (a + b)[|a| + i] == b[i];
      }
    }
    if AllSpace(a) && AllSpace(b) {
      forall i | 0 <= i < |a + b| ensures IsSpace((a + b)[i]) {
        if i < |a| { assert (a + b)[i] == a[i]; } else { assert (a + b)[i] == b[i - |a|]; }
      }
    }
  }

  /** str.lstrip(c): every leading `c` is removed. */
  function TrimLeftChar(s: string, c: char): (r: string)
    ensures |r| <= |s| && r == s[|s| - |r|..]
    ensures forall i :: 0 <= i < |s| - |r| ==> s[i] == c
    ensures r == [] || r[0] != c
  {
    if |s| > 0 && s[0] == c then TrimLeftChar(s[1..], c) else s
  }

  /** The number of occurrences of `c` in `s`. */
  function Count(s: string, c: char): nat {
    if |s| == 0 then 0 else (if s[0] == c then 1 else 0) + Count(s[1..], c)
  }

  /** str.split(d) with an explicit separator: one more piece than there are separators. */
  function Split(s: string, d: char): (r: seq<string>)
    ensures |r| == Count(s, d) + 1
    ensures forall k :: 0 <= k < |r| ==> d !in r[k]
  {
    if |s| == 0 then [""]
    else
      var rest := Split(s[1..], d);
      if s[0] == d then [""] + rest else [[s[0]] + rest[0]] + rest[1..]
  }

  /** sep.join(parts) for a one-character separator. */
  function JoinWith(parts: seq<string>, sep: char): string {
    if |parts| == 0 then ""
    else if |parts| == 1 then parts[0]
    else parts[0] + [sep] + JoinWith(parts[1..], sep)
  }

  /** "\n".join(lines) */
  function JoinLines(lines: seq<string>): string {
    JoinWith(lines, '\n')
  }

  /** Joining the pieces of a split with the same separator gives back the string. */
  lemma {:induction false} JoinSplit(s: string, d: char)
    ensures JoinWith(Split(s, d), d) == s
  {
    if |s| > 0 {
      var rest := Split(s[1..], d);
      JoinSplit(s[1..], d);
      if s[0] == d {
        assert Split(s, d) == [""] + rest;
        assert JoinWith([""] + rest, d) == "" + [d] + JoinWith(rest, d);
      } else if |rest| == 1 {
        assert Split(s, d) == [[s[0]] + rest[0]];
      } else {
        var parts := [[s[0]] + rest[0]] + rest[1..];
        assert Split(s, d) == parts;
        assert parts[1..] == rest[1..];
        assert JoinWith(rest, d) == rest[0] + [d] + JoinWith(rest[1..], d);
      }
    }
  }

  /** The lines joined with line feeds are blank exactly when every line is. */
  lemma {:induction false} JoinLinesBlank(lines: seq<string>)
    ensures IsBlank(JoinLines(lines)) <==> AllBlank(lines)
  {
    JoinAllSpace(lines);
    BlankIffAllSpace(JoinLines(lines));
    if AllBlank(lines) {
      forall k | 0 <= k < |lines| ensures AllSpace(lines[k]) {
        BlankIffAllSpace(lines[k]);
      }
    } else {
      var k :| 0 <= k < |lines| && !IsBlank(lines[k]);
      BlankIffAllSpace(lines[k]);
    }
  }

  lemma {:induction false} JoinAllSpace(lines: seq<string>)
    ensures AllSpace(JoinWith(lines, '\n')) <==> forall k :: 0 <= k < |lines| ==> AllSpace(lines[k])
  {
    if |lines| > 1 {
      JoinAllSpace(lines[1..]);
      AllSpaceConcat(lines[0] + ['\n'], JoinWith(lines[1..], '\n'));
      AllSpaceConcat(lines[0], ['\n']);
      assert forall k :: 1 <= k < |lines| ==> lines[k] == lines[1..][k - 1];
    }
  }

  function LowerChar(c: char): char {
    if 'A' <= c <= 'Z' then (c as int + 32) as char else c
  }

  /** str.lower(), on the ASCII letters. */
  function Lower(s: string): (r: string)
    ensures |r| == |s|
  {
    seq(|s|, i requires 0 <= i < |s| => LowerChar(s[i]))
  }
}
