/** `GithubSniffer.sniff` (flagger/sniffers/github.py): a code search whose
    hits are filtered by the date of their latest commit, fetched and scanned
    for flags. The requests, the base64 and UTF-8 decoding, the date parsing
    and the regex are inputs. */
module GithubSniffer {
  import opened Base
  import opened Text
  import opened Flags
  import opened LineSearch

  /** One code-search hit: the repository's full name; the latest commit
      touching the file, as its committer date in seconds (`None` when the
      repository lists no commit for the path), or the exception its request
      raised; the decoded file, or the exception its request or decoding
      raised; and the regex matches found in the file. */
  datatype CodeHit = CodeHit(
    fullName: string,
    latestCommit: Fetch<Option<int>>,
    file: Fetch<string>,
    matches: seq<string>)

  /** The origin recorded for a repository's flags. */
  function Origin(fullName: string): (o: string)
    ensures |o| == 19 + |fullName|
    ensures o[..19] == "https://github.com/" && o[19..] == fullName
  {
    "https://github.com/" + fullName
  }

  /** A hit is skipped when it has a latest commit dated strictly before
      the configured start; a hit with no commit is kept. */
  predicate Stale(latest: Option<int>, after: int) {
    latest.Some? && latest.value < after
  }

  /** The records of one file as github.py:57-69 produces them: the text a
      match is looked up in is replaced by the window cut around it, so each
      later match is searched only inside the previous match's context. */
  function FileFlags(origin: string, content: string, matches: seq<string>): seq<Flag>
    decreases |matches|
  {
    if matches == [] then []
    else
      var lines := SplitLines(content);
      match FirstLine(lines, matches[0])
      case None => FileFlags(origin, content, matches[1..])
      case Some(i) =>
        var narrowed := ContextAround(lines, i);
        [Flag(matches[0], origin, narrowed)] + FileFlags(origin, narrowed, matches[1..])
  }

  /** What one hit contributes: `None` when one of its requests raised. */
  function HitFlags(hit: CodeHit, after: int): Option<seq<Flag>> {
    match hit.latestCommit
    case FetchFailed => None
    case Fetched(latest) =>
      if Stale(latest, after) then Some([])
      else
        match hit.file
        case FetchFailed => None
        case Fetched(content) => Some(FileFlags(Origin(hit.fullName), content, hit.matches))
  }

  /** Two partial outcomes in sequence: `None` when either raised. */
  function Then(x: Option<seq<Flag>>, y: Option<seq<Flag>>): Option<seq<Flag>> {
    if x.Some? && y.Some? then Some(x.value + y.value) else None
  }

  /** What the hits contribute in order, or `None` once any of them raised:
      nothing caught inside `sniff`, so one failed request loses them all. */
  function HitsFlags(hits: seq<CodeHit>, after: int): Option<seq<Flag>>
    decreases |hits|
  {
    if hits == [] then Some([])
    else Then(HitsFlags(hits[..|hits| - 1], after), HitFlags(hits[|hits| - 1], after))
  }

  /** The `for flag in res` loop of github.py:57-69, reassigning the text it
      searches. */
  method ScanFile(origin: string, content: string, matches: seq<string>) returns (flags: seq<Flag>)
    ensures flags == FileFlags(origin, content, matches)
  {
    flags := [];
    var text := content;
    for k := 0 to |matches|
      invariant flags + FileFlags(origin, text, matches[k..]) == FileFlags(origin, content, matches)
    {
      assert matches[k..][1..] == matches[k + 1..];
      var lines := SplitLines(text);
      var flagLine := FindFlagLine(lines, matches[k]);
      if flagLine != -1 {
        var w := Window(|lines|, flagLine);
        text := Join("\n", lines[w.0..w.1]);
        flags := flags + [Flag(matches[k], origin, text)];
      }
    }
    assert matches[|matches|..] == [];
  }

  /** `GithubSniffer.sniff`: a failed search raises; otherwise each hit's
      latest commit is fetched, a stale hit is skipped, the file of any other
      is fetched and scanned; a request that fails on the way raises out of
      the whole call. */
  method Sniff(search: Fetch<seq<CodeHit>>, after: int) returns (outcome: SniffOutcome)
    ensures search.FetchFailed? ==> outcome == Raised
    ensures search.Fetched? && HitsFlags(search.value, after).None? ==> outcome == Raised
    ensures search.Fetched? && HitsFlags(search.value, after).Some? ==>
      outcome == Sniffed(HitsFlags(search.value, after).value)
  {
    if search.FetchFailed? {
      return Raised;
    }
    var hits := search.value;
    var flags: seq<Flag> := [];
    for h := 0 to |hits|
      invariant HitsFlags(hits[..h], after) == Some(flags)
    {
      var hit := hits[h];
      assert hits[..h + 1][..h] == hits[..h];
      if hit.latestCommit.FetchFailed? {
        RaiseAborts(hits, h + 1, after);
        return Raised;
      }
      var latest := hit.latestCommit.value;
      if latest.Some? && latest.value < after {
        assert flags + [] == flags;
        continue;
      }
      if hit.file.FetchFailed? {
        RaiseAborts(hits, h + 1, after);
        return Raised;
      }
      var found := ScanFile(Origin(hit.fullName), hit.file.value, hit.matches);
      flags := flags + found;
    }
    assert hits[..|hits|] == hits;
    return Sniffed(flags);
  }

  /** Once a prefix of the hits has raised, so have all the hits. */
  lemma {:induction false} RaiseAborts(hits: seq<CodeHit>, n: nat, after: int)
    requires n <= |hits| && HitsFlags(hits[..n], after).None?
    ensures HitsFlags(hits, after).None?
    decreases |hits| - n
  {
    if n == |hits| {
      assert hits[..n] == hits;
    } else {
      assert hits[..n + 1][..n] == hits[..n];
      RaiseAborts(hits, n + 1, after);
    }
  }

  /** One hit whose request fails discards the records of every other hit,
      before and after it. */
  lemma FailedHitAborts(a: seq<CodeHit>, hit: CodeHit, b: seq<CodeHit>, after: int)
    requires HitFlags(hit, after).None?
    ensures HitsFlags(a + [hit] + b, after).None?
  {
    var all := a + [hit] + b;
    assert all[..|a| + 1][..|a|] == a;
    assert all[..|a| + 1][|a|] == hit;
    RaiseAborts(all, |a| + 1, after);
  }

  lemma {:induction false} HitsFlagsAppend(a: seq<CodeHit>, b: seq<CodeHit>, after: int)
    ensures HitsFlags(a + b, after) == Then(HitsFlags(a, after), HitsFlags(b, after))
    decreases |b|
  {
    if b == [] {
      assert a + b == a;
      if HitsFlags(a, after).Some? {
        assert HitsFlags(a, after).value + [] == HitsFlags(a, after).value;
      }
    } else {
      var front := b[..|b| - 1];
      assert (a + b)[..|a + b| - 1] == a + front;
      assert (a + b)[|a + b| - 1] == b[|b| - 1];
      HitsFlagsAppend(a, front, after);
      var x := HitsFlags(a, after);
      var y := HitsFlags(front, after);
      var z := HitFlags(b[|b| - 1], after);
      if x.Some? && y.Some? && z.Some? {
        assert x.value + y.value + z.value == x.value + (y.value + z.value);
      }
    }
  }

  /** The date filter: a hit whose latest commit predates the start is
      skipped as if it were not in the search results, whatever its file. */
  lemma StaleHitSkipped(a: seq<CodeHit>, hit: CodeHit, b: seq<CodeHit>, after: int)
    requires hit.latestCommit.Fetched? && Stale(hit.latestCommit.value, after)
    ensures HitsFlags(a + [hit] + b, after) == HitsFlags(a + b, after)
  {
    HitsFlagsAppend(a + [hit], b, after);
    HitsFlagsAppend(a, [hit], after);
    HitsFlagsAppend(a, b, after);
    var none: seq<Flag> := [];
    assert [hit][..|[hit]| - 1] == [];
    assert [hit][|[hit]| - 1] == hit;
    assert HitFlags(hit, after) == Some(none);
    assert none + none == none;
    assert HitsFlags([hit], after) == Some([]);
    if HitsFlags(a, after).Some? {
      assert HitsFlags(a, after).value + [] == HitsFlags(a, after).value;
    }
  }

  /** Facts about one record of a file: its origin, that its value is one of
      the matches and occurs in its context, and how many lines that context
      has at most. */
  predicate FileRecord(origin: string, matches: seq<string>, bound: nat, f: Flag) {
    && f.origin == origin
    && f.flag in matches
    && Contains(f.context, f.flag)
    && |SplitLines(f.context)| <= bound
    && |SplitLines(f.context)| <= 2 * Radius
  }

  predicate FileRecords(origin: string, matches: seq<string>, bound: nat, fs: seq<Flag>) {
    forall k :: 0 <= k < |fs| ==> FileRecord(origin, matches, bound, fs[k])
  }

  /** The records of a later match stay records of the whole file: fewer
      matches and a smaller bound only strengthen the facts. */
  lemma RecordsCons(origin: string, tail: seq<string>, matches: seq<string>, small: nat, bound: nat, f: Flag, rest: seq<Flag>)
    requires forall x :: x in tail ==> x in matches
    requires small <= bound
    requires FileRecord(origin, matches, bound, f)
    requires FileRecords(origin, tail, small, rest)
    ensures FileRecords(origin, matches, bound, [f] + rest)
  {
    var all := [f] + rest;
    forall k | 0 <= k < |all|
      ensures FileRecord(origin, matches, bound, all[k])
    {
      if k > 0 {
        assert all[k] == rest[k - 1];
        assert FileRecord(origin, tail, small, rest[k - 1]);
      }
    }
  }

  /** Every record of a file carries the repository's origin and one of the
      matches, holds that match in its context, and has a context of at most
      100 lines and never more than the file had. */
  lemma {:induction false} FileFlagsRecords(origin: string, content: string, matches: seq<string>)
    ensures FileRecords(origin, matches, |SplitLines(content)|, FileFlags(origin, content, matches))
    decreases |matches|
  {
    if matches != [] {
      var lines := SplitLines(content);
      var m := matches[0];
      var tail := matches[1..];
      assert forall x :: x in tail ==> x in matches;
      match FirstLine(lines, m)
      case None =>
        FileFlagsRecords(origin, content, tail);
        var rest := FileFlags(origin, content, tail);
        assert FileFlags(origin, content, matches) == rest;
        forall k | 0 <= k < |rest|
          ensures FileRecord(origin, matches, |lines|, rest[k])
        {
          assert FileRecord(origin, tail, |lines|, rest[k]);
        }
      case Some(i) =>
        var narrowed := ContextAround(lines, i);
        SplitLinesBreakFree(content);
        ContextLines(lines, i);
        ContextHoldsLine(lines, i, m);
        FileFlagsRecords(origin, narrowed, tail);
        var f := Flag(m, origin, narrowed);
        assert FileFlags(origin, content, matches) == [f] + FileFlags(origin, narrowed, tail);
        RecordsCons(origin, tail, matches, |SplitLines(narrowed)|, |lines|, f, FileFlags(origin, narrowed, tail));
    }
  }

  /** Every record of a hit carries that hit's repository as its origin. */
  lemma HitOrigins(hit: CodeHit, after: int)
    requires HitFlags(hit, after).Some?
    ensures forall f :: f in HitFlags(hit, after).value ==> f.origin == Origin(hit.fullName)
  {
    if !Stale(hit.latestCommit.value, after) {
      var fs := FileFlags(Origin(hit.fullName), hit.file.value, hit.matches);
      FileFlagsRecords(Origin(hit.fullName), hit.file.value, hit.matches);
      forall f | f in fs
        ensures f.origin == Origin(hit.fullName)
      {
        var k :| 0 <= k < |fs| && fs[k] == f;
        assert FileRecord(Origin(hit.fullName), hit.matches, |SplitLines(hit.file.value)|, fs[k]);
      }
    }
  }

  /** Every record the sniffer returns carries the origin of one of the
      hits searched. */
  lemma {:induction false} HitsFlagsOrigins(hits: seq<CodeHit>, after: int)
    requires HitsFlags(hits, after).Some?
    ensures forall f :: f in HitsFlags(hits, after).value ==>
      exists h :: h in hits && f.origin == Origin(h.fullName)
    decreases |hits|
  {
    if hits != [] {
      var front := hits[..|hits| - 1];
      var last := hits[|hits| - 1];
      assert HitsFlags(hits, after) == Then(HitsFlags(front, after), HitFlags(last, after));
      HitsFlagsOrigins(front, after);
      HitOrigins(last, after);
      forall f | f in HitsFlags(hits, after).value
        ensures exists h :: h in hits && f.origin == Origin(h.fullName)
      {
        if f in HitsFlags(front, after).value {
          var h :| h in front && f.origin == Origin(h.fullName);
          assert h in hits;
        } else {
          assert f in HitFlags(last, after).value;
          assert last in hits;
        }
      }
    }
  }

  /** Each record's context has no more lines than the one before it: the
      text searched only ever shrinks. */
  lemma {:induction false} FileFlagsShrink(origin: string, content: string, matches: seq<string>)
    ensures forall k :: 0 < k < |FileFlags(origin, content, matches)| ==>
      |SplitLines(FileFlags(origin, content, matches)[k].context)|
        <= |SplitLines(FileFlags(origin, content, matches)[k - 1].context)|
    decreases |matches|
  {
    if matches != [] {
      var lines := SplitLines(content);
      var m := matches[0];
      var tail := matches[1..];
      match FirstLine(lines, m)
      case None =>
        FileFlagsShrink(origin, content, tail);
        assert FileFlags(origin, content, matches) == FileFlags(origin, content, tail);
      case Some(i) =>
        var narrowed := ContextAround(lines, i);
        FileFlagsShrink(origin, narrowed, tail);
        FileFlagsRecords(origin, narrowed, tail);
        var rest := FileFlags(origin, narrowed, tail);
        var all := [Flag(m, origin, narrowed)] + rest;
        assert FileFlags(origin, content, matches) == all;
        if |rest| > 0 {
          assert FileRecord(origin, tail, |SplitLines(narrowed)|, rest[0]);
        }
        assert forall k :: 1 <= k < |all| ==> all[k] == rest[k - 1];
    }
  }

  /** The narrowing loses a match: when the second match lies on no line
      of the first match's window, the loop as written drops it although it
      occurs in the file, while the scan that keeps the file's own lines
      (`LineSearch.ScanPage`) records both. */
  lemma NarrowingLosesDistantMatch(origin: string, content: string, a: string, b: string)
    requires FirstLine(SplitLines(content), a).Some?
    requires FirstLine(SplitLines(content), b).Some?
    requires forall j :: InWindow(|SplitLines(content)|, FirstLine(SplitLines(content), a).value, j) ==>
      !Contains(SplitLines(content)[j], b)
    ensures |FileFlags(origin, content, [a, b])| == 1
    ensures |MatchFlags(origin, SplitLines(content), [a, b])| == 2
  {
    var lines := SplitLines(content);
    var i := FirstLine(lines, a).value;
    var w := Window(|lines|, i);
    var narrowed := ContextAround(lines, i);
    SplitLinesBreakFree(content);
    ContextLines(lines, i);
    var cut := SplitLines(narrowed);
    forall k | 0 <= k < |cut|
      ensures !HasMatch(b, cut[k])
    {
      assert cut[k] == lines[w.0 + k];
      assert InWindow(|lines|, i, w.0 + k);
    }
    assert FirstLine(cut, b).None?;
    assert [a, b][1..] == [b];
    assert [b][1..] == [];
    assert FileFlags(origin, narrowed, [b]) == [];
    assert FileFlags(origin, content, [a, b]) == [Flag(a, origin, narrowed)];
    assert MatchFlags(origin, lines, [b]) == [Flag(b, origin, ContextAround(lines, FirstLine(lines, b).value))];
  }

  const FirstFlag: string := "CTF{a}"
  const SecondFlag: string := "CTF{b}"

  /** A file with a flag on its first line and another 61 lines further
      down, everything between filler. */
  const ExampleLines: seq<string> := [FirstFlag] + seq(60, _ => "x") + [SecondFlag]

  lemma ExampleSplits()
    ensures SplitLines(Join("\n", ExampleLines)) == ExampleLines
  {
    var lines := ExampleLines;
    assert forall k :: 0 <= k < |lines| ==> lines[k] == FirstFlag || lines[k] == "x" || lines[k] == SecondFlag;
    SplitJoin(lines);
  }

  lemma ExampleFound()
    ensures FirstLine(ExampleLines, FirstFlag) == Some(0)
    ensures FirstLine(ExampleLines, SecondFlag).Some?
  {
    var lines := ExampleLines;
    assert StartsWith(lines[0], FirstFlag);
    assert HasMatch(FirstFlag, lines[0]);
    assert StartsWith(lines[61], SecondFlag);
    assert HasMatch(SecondFlag, lines[61]);
  }

  lemma ExampleFarApart()
    ensures forall j :: InWindow(|ExampleLines|, 0, j) ==> !Contains(ExampleLines[j], SecondFlag)
  {
    var lines := ExampleLines;
    ShortNeverContains("x", SecondFlag);
    ShortNeverContains(FirstFlag[1..], SecondFlag);
    assert !StartsWith(FirstFlag, SecondFlag) by {
      assert FirstFlag[4] != SecondFlag[4];
    }
    assert !Contains(FirstFlag, SecondFlag);
    forall j | InWindow(|lines|, 0, j)
      ensures !Contains(lines[j], SecondFlag)
    {
      assert j < 61;
      assert j == 0 || lines[j] == "x";
    }
  }

  /** On that file the loop as written records only the first flag. */
  lemma NarrowingExample(origin: string)
    ensures |FileFlags(origin, Join("\n", ExampleLines), [FirstFlag, SecondFlag])| == 1
    ensures |MatchFlags(origin, SplitLines(Join("\n", ExampleLines)), [FirstFlag, SecondFlag])| == 2
  {
    ExampleSplits();
    ExampleFound();
    ExampleFarApart();
    NarrowingLosesDistantMatch(origin, Join("\n", ExampleLines), FirstFlag, SecondFlag);
  }
}
