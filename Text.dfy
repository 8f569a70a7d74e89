/** The parts of Python's `str` that the flag hunter relies on, written out
    over `seq<char>`: `lower`, the `in` operator, `count`, `sep.join`,
    `splitlines` and `strip`. */
module Text {

  // ---------------------------------------------------------------------
  // Case mapping

  /** `str.lower` on one character; only the ASCII letters are mapped. */
  function LowerChar(c: char): char {
    if 'A' <= c <= 'Z' then (c as int + 32) as char else c
  }

  function Lower(s: string): string {
    seq(|s|, i requires 0 <= i < |s| => LowerChar(s[i]))
  }

  // ---------------------------------------------------------------------
  // Substrings: `sub in s` and `s.count(sub)`

  predicate StartsWith(s: string, prefix: string) {
    |prefix| <= |s| && s[..|prefix|] == prefix
  }

  /** Python's `sub in s` (also `s.find(sub) != -1`); the empty string
      occurs in every string. */
  predicate Contains(s: string, sub: string)
    decreases |s|
  {
    StartsWith(s, sub) || (s != [] && Contains(s[1..], sub))
  }

  /** Python's `s.count(sub)`: occurrences found scanning left to right
      without overlap; the empty string is counted `|s| + 1` times. */
  function Count(s: string, sub: string): nat
    decreases |s|
  {
    if sub == [] then |s| + 1
    else if |s| < |sub| then 0
    else if StartsWith(s, sub) then 1 + Count(s[|sub|..], sub)
    else Count(s[1..], sub)
  }

  lemma {:induction false} ShortNeverContains(s: string, sub: string)
    requires |s| < |sub|
    ensures !Contains(s, sub)
    decreases |s|
  {
    if s != [] {
      ShortNeverContains(s[1..], sub);
    }
  }

  /** A text lacking the first character of `sub` does not contain it. */
  lemma {:induction false} NoFirstNoContains(s: string, sub: string)
    requires sub != [] && sub[0] !in s
    ensures !Contains(s, sub)
    decreases |s|
  {
    if s != [] {
      assert s[0] != sub[0];
      assert forall c :: c in s[1..] ==> c in s;
      NoFirstNoContains(s[1..], sub);
    }
  }

  /** `s.count(sub)` is positive exactly when `sub in s`; so the `find`
      guard in front of a `count` loop never changes what the loop adds. */
  lemma {:induction false} CountPositiveIffContains(s: string, sub: string)
    ensures Count(s, sub) > 0 <==> Contains(s, sub)
    decreases |s|
  {
    if sub == [] {
      assert StartsWith(s, sub);
    } else if |s| < |sub| {
      ShortNeverContains(s, sub);
    } else if !StartsWith(s, sub) {
      CountPositiveIffContains(s[1..], sub);
    }
  }

  lemma {:induction false} ContainsAt(s: string, sub: string, i: nat)
    requires i + |sub| <= |s| && s[i..i + |sub|] == sub
    ensures Contains(s, sub)
    decreases i
  {
    if i == 0 {
      assert s[..|sub|] == s[0..|sub|];
    } else {
      assert s[1..][i - 1..i - 1 + |sub|] == s[i..i + |sub|];
      ContainsAt(s[1..], sub, i - 1);
    }
  }

  lemma {:induction false} ContainsWitness(s: string, sub: string) returns (i: nat)
    requires Contains(s, sub)
    ensures i + |sub| <= |s| && s[i..i + |sub|] == sub
    decreases |s|
  {
    if StartsWith(s, sub) {
      i := 0;
    } else {
      var k := ContainsWitness(s[1..], sub);
      assert s[1..][k..k + |sub|] == s[k + 1..k + 1 + |sub|];
      i := k + 1;
    }
  }

  /** Text found in a piece is still found once the piece is embedded. */
  lemma ContainsInfix(x: string, a: string, y: string, sub: string)
    requires Contains(a, sub)
    ensures Contains(x + a + y, sub)
  {
    var i := ContainsWitness(a, sub);
    var s := x + a + y;
    assert s[|x| + i..|x| + i + |sub|] == a[i..i + |sub|];
    ContainsAt(s, sub, |x| + i);
  }

  // ---------------------------------------------------------------------
  // `sep.join(parts)`

  function Join(sep: string, parts: seq<string>): string
    decreases |parts|
  {
    if parts == [] then ""
    else if |parts| == 1 then parts[0]
    else Join(sep, parts[..|parts| - 1]) + sep + parts[|parts| - 1]
  }

  lemma {:induction false} JoinCons(sep: string, a: string, rest: seq<string>)
    requires rest != []
    ensures Join(sep, [a] + rest) == a + sep + Join(sep, rest)
    decreases |rest|
  {
    var all := [a] + rest;
    if |rest| > 1 {
      var front := rest[..|rest| - 1];
      assert all[..|all| - 1] == [a] + front;
      JoinCons(sep, a, front);
    } else {
      assert all[..|all| - 1] == [a];
    }
  }

  /** Whatever occurs in one part occurs in the joined text. */
  lemma {:induction false} JoinContainsPart(sep: string, parts: seq<string>, k: nat, sub: string)
    requires k < |parts| && Contains(parts[k], sub)
    ensures Contains(Join(sep, parts), sub)
    decreases |parts|
  {
    if |parts| > 1 {
      var front := parts[..|parts| - 1];
      var last := parts[|parts| - 1];
      if k == |parts| - 1 {
        ContainsInfix(Join(sep, front) + sep, last, "", sub);
        assert Join(sep, front) + sep + last + "" == Join(sep, parts);
      } else {
        JoinContainsPart(sep, front, k, sub);
        ContainsInfix("", Join(sep, front), sep + last, sub);
        assert "" + Join(sep, front) + (sep + last) == Join(sep, parts);
      }
    }
  }

  // ---------------------------------------------------------------------
  // `str.splitlines()`

  /** The line boundaries of `str.splitlines`: \n, \r, \v, \f, \x1c, \x1d,
      \x1e, \x85, U+2028 and U+2029 (\r\n counts as one boundary). */
  predicate IsLineBreak(c: char) {
    var n := c as int;
    n == 10 || n == 13 || n == 11 || n == 12 || n == 0x1C || n == 0x1D
    || n == 0x1E || n == 0x85 || n == 0x2028 || n == 0x2029
  }

  predicate BreakFree(s: string) {
    forall i :: 0 <= i < |s| ==> !IsLineBreak(s[i])
  }

  /** Index of the first line boundary, or `|s|` when there is none. */
  function FirstBreak(s: string): (k: nat)
    ensures k <= |s| && BreakFree(s[..k])
    ensures k < |s| ==> IsLineBreak(s[k])
    decreases |s|
  {
    if s == [] then 0
    else if IsLineBreak(s[0]) then 0
    else
      var k := FirstBreak(s[1..]);
      assert s[..k + 1] == [s[0]] + s[1..][..k];
      k + 1
  }

  /** `s.splitlines()`: the lines without their terminators; no empty
      last line after a final terminator; `[]` for the empty string. */
  function SplitLines(s: string): seq<string>
    decreases |s|
  {
    if s == [] then []
    else
      var k := FirstBreak(s);
      if k == |s| then [s]
      else
        var skip := if s[k] == '\r' && k + 1 < |s| && s[k + 1] == '\n' then 2 else 1;
        [s[..k]] + SplitLines(s[k + skip..])
  }

  /** Every line `splitlines` produces is free of line boundaries. */
  lemma {:induction false} SplitLinesBreakFree(s: string)
    ensures forall i :: 0 <= i < |SplitLines(s)| ==> BreakFree(SplitLines(s)[i])
    decreases |s|
  {
    if s != [] {
      var k := FirstBreak(s);
      if k < |s| {
        var skip := if s[k] == '\r' && k + 1 < |s| && s[k + 1] == '\n' then 2 else 1;
        SplitLinesBreakFree(s[k + skip..]);
      }
    }
  }

  lemma {:induction false} FirstBreakAfter(a: string, t: string)
    requires BreakFree(a)
    ensures FirstBreak(a + t) == |a| + FirstBreak(t)
    decreases |a|
  {
    if a != [] {
      assert (a + t)[1..] == a[1..] + t;
      FirstBreakAfter(a[1..], t);
    } else {
      assert a + t == t;
    }
  }

  /** `lines` without a final empty line: what survives a join and split. */
  function DropTrailingEmpty(lines: seq<string>): seq<string> {
    if lines != [] && lines[|lines| - 1] == "" then lines[..|lines| - 1] else lines
  }

  /** Splitting `"\n".join(lines)` gives the lines back, except that a
      final empty line is lost, when no line holds a boundary. */
  lemma {:induction false} SplitJoin(lines: seq<string>)
    requires forall i :: 0 <= i < |lines| ==> BreakFree(lines[i])
    ensures SplitLines(Join("\n", lines)) == DropTrailingEmpty(lines)
    decreases |lines|
  {
    if |lines| == 1 {
      var a := lines[0];
      if a != "" {
        FirstBreakAfter(a, "");
        assert a + "" == a;
      }
    } else if |lines| > 1 {
      var a := lines[0];
      var rest := lines[1..];
      assert lines == [a] + rest;
      JoinCons("\n", a, rest);
      var j := Join("\n", rest);
      var s := a + "\n" + j;
      assert s == a + ("\n" + j);
      FirstBreakAfter(a, "\n" + j);
      assert FirstBreak(s) == |a|;
      assert s[..|a|] == a;
      assert s[|a| + 1..] == j;
      SplitJoin(rest);
      assert SplitLines(s) == [a] + SplitLines(j);
      assert rest[|rest| - 1] == lines[|lines| - 1];
      assert lines[..|lines| - 1] == [a] + rest[..|rest| - 1];
    }
  }

  // ---------------------------------------------------------------------
  // `str.strip()`

  /** The characters Python's `str.isspace` accepts. */
  predicate IsSpace(c: char) {
    var n := c as int;
    (9 <= n <= 13) || (0x1C <= n <= 0x20) || n == 0x85 || n == 0xA0 || n == 0x1680
    || (0x2000 <= n <= 0x200A) || n == 0x2028 || n == 0x2029 || n == 0x202F
    || n == 0x205F || n == 0x3000
  }

  function TrimStart(s: string): string
    decreases |s|
  {
    if s != [] && IsSpace(s[0]) then TrimStart(s[1..]) else s
  }

  function TrimEnd(s: string): string
    decreases |s|
  {
    if s != [] && IsSpace(s[|s| - 1]) then TrimEnd(s[..|s| - 1]) else s
  }

  /** `s.strip()`: white space removed at both ends. */
  function Strip(s: string): string {
    TrimEnd(TrimStart(s))
  }

  /** Neither end of `s` is white space. */
  predicate Unpadded(s: string) {
    s == [] || (!IsSpace(s[0]) && !IsSpace(s[|s| - 1]))
  }

  /** A value without surrounding white space comes back from `strip` of
      the line written for it. */
  lemma StripLine(x: string)
    requires Unpadded(x)
    ensures Strip(x + "\n") == x
  {
    var s := x + "\n";
    if x == [] {
      assert TrimStart(s) == TrimStart(s[1..]);
      assert s[1..] == [];
    } else {
      assert TrimStart(s) == s;
      assert s[..|s| - 1] == x;
      assert TrimEnd(s) == TrimEnd(x);
    }
  }
}
