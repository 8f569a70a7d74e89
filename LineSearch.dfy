/** The step both sniffers take for every regex match: find the first line
    holding the match and cut the lines around it out as the flag's context
    (flagger/sniffers/duckduckgo.py:36-48, flagger/sniffers/github.py:57-69). */
module LineSearch {
  import opened Base
  import opened Text
  import opened Flags

  /** Lines kept before the flag's line; the window ends `Radius` lines after
      it, exclusive, so it holds 50 lines before and 49 after. */
  const Radius: nat := 50

  predicate HasMatch(m: string, line: string) {
    Contains(line, m)
  }

  /** Index of the first line containing `m` as a substring. */
  function FirstLine(lines: seq<string>, m: string): Option<nat> {
    FirstWhere(lines, line => HasMatch(m, line))
  }

  /** The `for i, line in enumerate(lines): if flag in line: flag_line = i;
      break` scan, with -1 for "no line". */
  method FindFlagLine(lines: seq<string>, m: string) returns (flagLine: int)
    ensures -1 <= flagLine < |lines|
    ensures flagLine >= 0 ==> Contains(lines[flagLine], m)
    ensures flagLine >= 0 ==> forall j :: 0 <= j < flagLine ==> !Contains(lines[j], m)
    ensures flagLine == -1 <==> forall j :: 0 <= j < |lines| ==> !Contains(lines[j], m)
    ensures flagLine == (if FirstLine(lines, m).Some? then FirstLine(lines, m).value else -1)
  {
    flagLine := -1;
    var i := 0;
    while i < |lines|
      invariant 0 <= i <= |lines|
      invariant flagLine == -1
      invariant forall j :: 0 <= j < i ==> !Contains(lines[j], m)
    {
      if Contains(lines[i], m) {
        flagLine := i;
        break;
      }
      i := i + 1;
    }
    if flagLine == -1 {
      assert forall j :: 0 <= j < |lines| ==> !HasMatch(m, lines[j]);
    } else {
      assert HasMatch(m, lines[flagLine]);
      assert forall j :: 0 <= j < flagLine ==> !HasMatch(m, lines[j]);
    }
  }

  /** Line `j` of `n` lies within 50 lines before and 49 after line `i`. */
  predicate InWindow(n: nat, i: nat, j: int) {
    0 <= j < n && i - Radius <= j < i + Radius
  }

  /** `start = max(0, i - 50)`, `end = min(len(lines), i + 50)`: the window
      is every line within 50 before and 49 after line `i`, clipped to the
      page. */
  function Window(n: nat, i: nat): (w: (nat, nat))
    requires i < n
    ensures 0 <= w.0 <= i < w.1 <= n
    ensures w.1 - w.0 <= 2 * Radius
    ensures forall j :: InWindow(n, i, j) <==> w.0 <= j < w.1
  {
    var start := if i - Radius > 0 then i - Radius else 0;
    var end := if n < i + Radius then n else i + Radius;
    (start, end)
  }

  /** `"\n".join(lines[start:end])` around line `i`. */
  function ContextAround(lines: seq<string>, i: nat): string
    requires i < |lines|
  {
    var w := Window(|lines|, i);
    Join("\n", lines[w.0..w.1])
  }

  /** The context cut around a line holds whatever that line holds, so a
      flag always occurs in its own context. */
  lemma ContextHoldsLine(lines: seq<string>, i: nat, m: string)
    requires i < |lines| && Contains(lines[i], m)
    ensures Contains(ContextAround(lines, i), m)
  {
    var w := Window(|lines|, i);
    assert lines[w.0..w.1][i - w.0] == lines[i];
    JoinContainsPart("\n", lines[w.0..w.1], i - w.0, m);
  }

  /** Splitting the context again gives the window's lines less a final
      empty line, so never more than 100 lines and never more than the page
      had. */
  lemma ContextLines(lines: seq<string>, i: nat)
    requires i < |lines|
    requires forall k :: 0 <= k < |lines| ==> BreakFree(lines[k])
    ensures |SplitLines(ContextAround(lines, i))| <= |lines|
    ensures |SplitLines(ContextAround(lines, i))| <= 2 * Radius
    ensures |SplitLines(ContextAround(lines, i))| <= Window(|lines|, i).1 - Window(|lines|, i).0
    ensures forall k :: 0 <= k < |SplitLines(ContextAround(lines, i))| ==>
      SplitLines(ContextAround(lines, i))[k] == lines[Window(|lines|, i).0 + k]
    ensures SplitLines(ContextAround(lines, i))
      == DropTrailingEmpty(lines[Window(|lines|, i).0..Window(|lines|, i).1])
  {
    var w := Window(|lines|, i);
    SplitJoin(lines[w.0..w.1]);
  }

  /** The record of one match: none when no single line holds it, else one
      with origin `origin` and the context around its first line. */
  function MatchFlag(origin: string, lines: seq<string>, m: string): (r: seq<Flag>)
    ensures |r| <= 1
    ensures r != [] ==> r[0].flag == m && r[0].origin == origin
  {
    match FirstLine(lines, m)
    case None => []
    case Some(i) => [Flag(m, origin, ContextAround(lines, i))]
  }

  /** The records of every match in turn, all cut from the same `lines`. */
  function MatchFlags(origin: string, lines: seq<string>, matches: seq<string>): seq<Flag>
    decreases |matches|
  {
    if matches == [] then []
    else MatchFlag(origin, lines, matches[0]) + MatchFlags(origin, lines, matches[1..])
  }

  lemma MatchFlagsFrom(origin: string, lines: seq<string>, matches: seq<string>, k: nat)
    requires k < |matches|
    ensures MatchFlags(origin, lines, matches[k..])
      == MatchFlag(origin, lines, matches[k]) + MatchFlags(origin, lines, matches[k + 1..])
  {
    assert matches[k..][1..] == matches[k + 1..];
  }

  /** The `for flag in matches` loop of duckduckgo.py:36-48: each match is
      looked up in the page's full lines and its window becomes the record's
      context, held in its own variable. */
  method ScanPage(url: string, content: string, matches: seq<string>) returns (flags: seq<Flag>)
    ensures flags == MatchFlags(url, SplitLines(content), matches)
  {
    var lines := SplitLines(content);
    flags := [];
    for k := 0 to |matches|
      invariant flags + MatchFlags(url, lines, matches[k..]) == MatchFlags(url, lines, matches)
    {
      MatchFlagsFrom(url, lines, matches, k);
      var flagLine := FindFlagLine(lines, matches[k]);
      var here: seq<Flag> := [];
      if flagLine != -1 {
        var w := Window(|lines|, flagLine);
        var context := Join("\n", lines[w.0..w.1]);
        here := [Flag(matches[k], url, context)];
      }
      assert here == MatchFlag(url, lines, matches[k]);
      flags := flags + here;
    }
    assert matches[|matches|..] == [];
  }

  /** The matches that occur on at least one line, in order, repeats kept. */
  function OnSomeLine(lines: seq<string>, matches: seq<string>): seq<string>
    decreases |matches|
  {
    if matches == [] then []
    else (if FirstLine(lines, matches[0]).Some? then [matches[0]] else [])
         + OnSomeLine(lines, matches[1..])
  }

  /** One record per match that occurs on some line, in match order,
      repeats included; a match found on no single line gives none. */
  lemma {:induction false} MatchFlagsValues(origin: string, lines: seq<string>, matches: seq<string>)
    ensures Values(MatchFlags(origin, lines, matches)) == OnSomeLine(lines, matches)
    decreases |matches|
  {
    if matches != [] {
      var m := matches[0];
      MatchFlagsValues(origin, lines, matches[1..]);
      var rest := MatchFlags(origin, lines, matches[1..]);
      if FirstLine(lines, m).Some? {
        var all := MatchFlag(origin, lines, m) + rest;
        assert MatchFlags(origin, lines, matches) == all;
        assert Values(all) == [m] + Values(rest);
      } else {
        assert MatchFlags(origin, lines, matches) == rest;
      }
    }
  }

  /** Every record has the given origin, has as context the window around
      the first line holding its value (always cut from the same `lines`),
      and holds its value in that context. */
  predicate CutFrom(origin: string, lines: seq<string>, f: Flag) {
    && f.origin == origin
    && FirstLine(lines, f.flag).Some?
    && f.context == ContextAround(lines, FirstLine(lines, f.flag).value)
    && Contains(f.context, f.flag)
  }

  lemma {:induction false} MatchFlagsRecords(origin: string, lines: seq<string>, matches: seq<string>)
    ensures forall k :: 0 <= k < |MatchFlags(origin, lines, matches)| ==>
      CutFrom(origin, lines, MatchFlags(origin, lines, matches)[k])
    decreases |matches|
  {
    if matches != [] {
      var m := matches[0];
      MatchFlagsRecords(origin, lines, matches[1..]);
      var rest := MatchFlags(origin, lines, matches[1..]);
      if FirstLine(lines, m).Some? {
        var i := FirstLine(lines, m).value;
        ContextHoldsLine(lines, i, m);
        var all := MatchFlag(origin, lines, m) + rest;
        assert MatchFlags(origin, lines, matches) == all;
        assert CutFrom(origin, lines, all[0]);
        assert forall k :: 1 <= k < |all| ==> all[k] == rest[k - 1];
      } else {
        assert MatchFlags(origin, lines, matches) == rest;
      }
    }
  }

  /** Every match that occurs on some line yields exactly one record. */
  lemma {:induction false} OnSomeLineAll(lines: seq<string>, matches: seq<string>)
    requires forall k :: 0 <= k < |matches| ==> exists j :: 0 <= j < |lines| && Contains(lines[j], matches[k])
    ensures OnSomeLine(lines, matches) == matches
    decreases |matches|
  {
    if matches != [] {
      var j :| 0 <= j < |lines| && Contains(lines[j], matches[0]);
      assert HasMatch(matches[0], lines[j]);
      OnSomeLineAll(lines, matches[1..]);
    }
  }
}
