/**
 * The Python 2 byte-string methods the whois2 core relies on: `endswith`,
 * `startswith`, `strip`, `lower`, `upper` and `splitlines`.  Byte strings are
 * modelled as `string`; case mapping and whitespace are the ASCII ones, as
 * for Python 2 `str` in the C locale.
 */
module PyStr {

  /** `s.endswith(suffix)` */
  predicate EndsWith(s: string, suffix: string) {
    |suffix| <= |s| && s[|s| - |suffix|..] == suffix
  }

  /** `s.startswith(prefix)` */
  predicate StartsWith(s: string, prefix: string) {
    |prefix| <= |s| && s[..|prefix|] == prefix
  }

  /** The characters `str.strip()` removes: space, \t, \n, \r, \v and \f. */
  predicate IsSpace(c: char) {
    c == ' ' || c == '\t' || c == '\n' || c == '\r' || c == '\U{0B}' || c == '\U{0C}'
  }

  function StripLeft(s: string): (r: string)
    ensures |r| <= |s| && r == s[|s| - |r|..]
    ensures r == [] || !IsSpace(r[0])
    ensures forall i :: 0 <= i < |s| - |r| ==> IsSpace(s[i])
  {
    if |s| > 0 && IsSpace(s[0]) then StripLeft(s[1..]) else s
  }

  function StripRight(s: string): (r: string)
    ensures |r| <= |s| && r == s[..|r|]
    ensures r == [] || !IsSpace(r[|r| - 1])
    ensures forall i :: |r| <= i < |s| ==> IsSpace(s[i])
  {
    if |s| > 0 && IsSpace(s[|s| - 1]) then StripRight(s[..|s| - 1]) else s
  }

  /** `s.strip()`: the longest slice of `s` that neither starts nor ends with whitespace. */
  function Strip(s: string): (r: string)
    ensures |r| <= |s|
    ensures r == [] || (!IsSpace(r[0]) && !IsSpace(r[|r| - 1]))
  {
    StripRight(StripLeft(s))
  }

  predicate AllSpace(s: string) {
    forall i :: 0 <= i < |s| ==> IsSpace(s[i])
  }

  lemma {:induction false} StripLeftSpaces(pad: string, s: string)
    requires AllSpace(pad) && (s == [] || !IsSpace(s[0]))
    ensures StripLeft(pad + s) == s
    decreases |pad|
  {
    if pad == [] {
      assert pad + s == s;
    } else {
      assert (pad + s)[1..] == pad[1..] + s;
      StripLeftSpaces(pad[1..], s);
    }
  }

  lemma {:induction false} StripRightSpaces(s: string, pad: string)
    requires AllSpace(pad) && (s == [] || !IsSpace(s[|s| - 1]))
    ensures StripRight(s + pad) == s
    decreases |pad|
  {
    if pad == [] {
      assert s + pad == s;
    } else {
      var init := pad[..|pad| - 1];
      assert (s + pad)[..|s + pad| - 1] == s + init;
      StripRightSpaces(s, init);
    }
  }

  /**
   * `strip()` recovers a non-empty text that neither starts nor ends with
   * whitespace from any whitespace padding around it.
   */
  lemma {:induction false} StripPadded(left: string, s: string, right: string)
    requires AllSpace(left) && AllSpace(right)
    requires s != [] && !IsSpace(s[0]) && !IsSpace(s[|s| - 1])
    ensures Strip(left + s + right) == s
  {
    assert left + s + right == left + (s + right);
    StripLeftSpaces(left, s + right);
    StripRightSpaces(s, right);
  }

  function LowerChar(c: char): (d: char)
    ensures !('A' <= d <= 'Z')
  {
    if 'A' <= c <= 'Z' then (c as int - 'A' as int + 'a' as int) as char else c
  }

  function UpperChar(c: char): (d: char)
    ensures !('a' <= d <= 'z')
  {
    if 'a' <= c <= 'z' then (c as int - 'a' as int + 'A' as int) as char else c
  }

  /** `s.lower()` */
  function Lower(s: string): (r: string)
    ensures |r| == |s|
    ensures forall i :: 0 <= i < |s| ==> r[i] == LowerChar(s[i])
  {
    seq(|s|, i requires 0 <= i < |s| => LowerChar(s[i]))
  }

  /** `s.upper()` */
  function Upper(s: string): (r: string)
    ensures |r| == |s|
    ensures forall i :: 0 <= i < |s| ==> r[i] == UpperChar(s[i])
  {
    seq(|s|, i requires 0 <= i < |s| => UpperChar(s[i]))
  }

  lemma {:induction false} LowerIdempotent(s: string)
    ensures Lower(Lower(s)) == Lower(s)
  {
  }

  /** The line boundaries `str.splitlines()` recognises on a byte string. */
  predicate IsLineBreak(c: char) {
    c == '\n' || c == '\r'
  }

  /** Index of the first line break of `s`, or `|s|` when there is none. */
  function LineEnd(s: string): (i: nat)
    ensures i <= |s|
    ensures i < |s| ==> IsLineBreak(s[i])
    ensures forall j :: 0 <= j < i ==> !IsLineBreak(s[j])
  {
    if s == [] || IsLineBreak(s[0]) then 0 else 1 + LineEnd(s[1..])
  }

  /**
   * `s.splitlines()`: the lines of `s` without their terminators, where
   * "\r\n" counts as one terminator and a final terminator opens no new line
   * (so the empty text has no lines).
   */
  function SplitLines(s: string): (lines: seq<string>)
    decreases |s|
  {
    if s == [] then []
    else
      var i := LineEnd(s);
      if i == |s| then [s]
      else
        [s[..i]] + SplitLines(s[NextLineStart(s, i)..])
  }

  predicate NoLineBreak(line: string) {
    forall c :: c in line ==> !IsLineBreak(c)
  }

  /** The characters of `s` other than line breaks, in order. */
  function DropBreaks(s: string): (r: string)
    ensures |r| <= |s|
  {
    if s == [] then []
    else if IsLineBreak(s[0]) then DropBreaks(s[1..])
    else [s[0]] + DropBreaks(s[1..])
  }

  function Concat(lines: seq<string>): string {
    if lines == [] then [] else lines[0] + Concat(lines[1..])
  }

  lemma {:induction false} DropBreaksAppend(a: string, b: string)
    ensures DropBreaks(a + b) == DropBreaks(a) + DropBreaks(b)
    decreases |a|
  {
    if a == [] {
      assert a + b == b;
    } else {
      assert (a + b)[0] == a[0];
      assert (a + b)[1..] == a[1..] + b;
      DropBreaksAppend(a[1..], b);
    }
  }

  lemma {:induction false} DropBreaksOfLine(s: string)
    requires NoLineBreak(s)
    ensures DropBreaks(s) == s
    decreases |s|
  {
    if s != [] {
      assert s[0] in s;
      assert forall c :: c in s[1..] ==> c in s;
      DropBreaksOfLine(s[1..]);
    }
  }

  lemma {:induction false} DropBreaksOfBreaks(s: string)
    requires forall i :: 0 <= i < |s| ==> IsLineBreak(s[i])
    ensures DropBreaks(s) == []
    decreases |s|
  {
    if s != [] {
      DropBreaksOfBreaks(s[1..]);
    }
  }

  lemma {:induction false} ConcatCons(line: string, lines: seq<string>)
    ensures Concat([line] + lines) == line + Concat(lines)
  {
    assert ([line] + lines)[1..] == lines;
  }

  /** Where `splitlines` resumes after the line break at `i`. */
  function NextLineStart(s: string, i: nat): (next: nat)
    requires i < |s|
    ensures i < next <= |s|
  {
    if s[i] == '\r' && i + 1 < |s| && s[i + 1] == '\n' then i + 2 else i + 1
  }

  lemma {:induction false} SplitLinesUnfold(s: string)
    requires s != [] && LineEnd(s) < |s|
    ensures SplitLines(s) == [s[..LineEnd(s)]] + SplitLines(s[NextLineStart(s, LineEnd(s))..])
  {
  }

  lemma {:induction false} PrefixHasNoBreak(s: string, i: nat)
    requires i <= |s|
    requires forall j :: 0 <= j < i ==> !IsLineBreak(s[j])
    ensures NoLineBreak(s[..i])
  {
    forall c | c in s[..i] ensures !IsLineBreak(c) {
      var j :| 0 <= j < i && s[..i][j] == c;
    }
  }

  /** No line `splitlines` returns holds a line break. */
  lemma {:induction false} SplitLinesHaveNoBreaks(s: string)
    ensures forall line :: line in SplitLines(s) ==> NoLineBreak(line)
    decreases |s|
  {
    if s != [] {
      var i := LineEnd(s);
      PrefixHasNoBreak(s, i);
      if i < |s| {
        SplitLinesUnfold(s);
        SplitLinesHaveNoBreaks(s[NextLineStart(s, i)..]);
      }
    }
  }

  /** Dropping the breaks of a text cut at a line terminator keeps the line before it. */
  lemma {:induction false} DropBreaksAcrossTerminator(line: string, term: string, rest: string)
    requires NoLineBreak(line)
    requires forall k :: 0 <= k < |term| ==> IsLineBreak(term[k])
    ensures DropBreaks(line + (term + rest)) == line + DropBreaks(rest)
  {
    DropBreaksOfLine(line);
    DropBreaksOfBreaks(term);
    DropBreaksAppend(line, term + rest);
    DropBreaksAppend(term, rest);
  }

  lemma {:induction false} DropBreaksAtTerminator(s: string, i: nat)
    requires i < |s| && LineEnd(s) == i
    ensures DropBreaks(s) == s[..i] + DropBreaks(s[NextLineStart(s, i)..])
  {
    var next := NextLineStart(s, i);
    var line, term, rest := s[..i], s[i..next], s[next..];
    PrefixHasNoBreak(s, i);
    forall k | 0 <= k < |term| ensures IsLineBreak(term[k]) {
      assert term[k] == s[i + k];
    }
    assert s == line + (term + rest) by {
      assert term + rest == s[i..];
    }
    DropBreaksAcrossTerminator(line, term, rest);
  }

  /** The lines `splitlines` returns, put back together, are the text without its line breaks. */
  lemma {:induction false} SplitLinesLosesOnlyBreaks(s: string)
    ensures Concat(SplitLines(s)) == DropBreaks(s)
    decreases |s|
  {
    if s != [] {
      var i := LineEnd(s);
      if i == |s| {
        PrefixHasNoBreak(s, i);
        assert s[..i] == s;
        DropBreaksOfLine(s);
        ConcatCons(s, []);
      } else {
        var rest := s[NextLineStart(s, i)..];
        SplitLinesUnfold(s);
        SplitLinesLosesOnlyBreaks(rest);
        ConcatCons(s[..i], SplitLines(rest));
        DropBreaksAtTerminator(s, i);
      }
    }
  }
}
