/** The session around the sniffers (flagger/__main__.py): the set of flag
    values already reported (`FOUND_THIS_SESSION`), `log_flag`'s report of a
    new flag, the `dispatch` cycle, and the ledger file
    `flags_found_<name>.txt` that carries the set from one run to the next. */
module Session {
  import opened Base
  import opened Text
  import opened Flags
  import opened Classifier

  /** The settings `log_flag` reads: `use_llm`, `use_discord_webhook`, and
      `fuzz.ratio` as an input. */
  datatype Config = Config(useLlm: bool, useWebhook: bool, ratio: (string, string) -> real)

  /** A `discord_embed` notification: its challenge field, URL and flag. */
  datatype Notice = Notice(challenge: string, url: string, flag: string)

  /** What reporting one new flag produced: the flag, its attribution, the
      notification sent (if any) and the number of model queries made. */
  datatype Report = Report(flag: Flag, attribution: Attribution, notice: Option<Notice>, modelCalls: nat)

  /** One run of `dispatch`: what each sniffer returned or that it raised,
      the challenge names in force, and the model's reply to attempt `k` for
      a flag. */
  datatype Cycle = Cycle(outcomes: seq<SniffOutcome>, challenges: seq<string>, llm: (Flag, nat) -> string)

  /** The model's replies while one flag is classified. */
  function RepliesFor(llm: (Flag, nat) -> string, f: Flag): nat -> string {
    (k: nat) => llm(f, k)
  }

  /** The challenge field of a notification. */
  function NoticeTitle(a: Attribution): string {
    match a
    case Unknown => "Unknown challenge"
    case Named(name) => name
  }

  /** The report `log_flag` makes of a flag it has not seen before. */
  function ReportFor(cfg: Config, challenges: seq<string>, llm: (Flag, nat) -> string, f: Flag): (r: Report)
    ensures r.flag == f
    ensures r.attribution == Attribute(cfg.ratio, RepliesFor(llm, f), cfg.useLlm, f.context, challenges)
    ensures r.notice.Some? <==> r.attribution == Unknown || cfg.useWebhook
    ensures r.notice.Some? ==> r.notice.value == Notice(NoticeTitle(r.attribution), f.origin, f.flag)
    ensures r.modelCalls <= Attempts
  {
    var replies := RepliesFor(llm, f);
    var a := Attribute(cfg.ratio, replies, cfg.useLlm, f.context, challenges);
    var notice := if a.Unknown? || cfg.useWebhook then Some(Notice(NoticeTitle(a), f.origin, f.flag)) else None;
    Report(f, a, notice, CallsFor(cfg.ratio, replies, cfg.useLlm, f.context, challenges))
  }

  /** The flag values of the reports, in report order. */
  function ReportValues(rs: seq<Report>): seq<string> {
    seq(|rs|, i requires 0 <= i < |rs| => rs[i].flag.flag)
  }

  lemma ReportValuesSnoc(rs: seq<Report>, r: Report)
    ensures ReportValues(rs + [r]) == ReportValues(rs) + [r.flag.flag]
  {
  }

  /** The reports of one pass of `log_flag` over `fs` starting from the
      values `seen`: a flag is reported unless its value was seen before or
      occurred earlier in `fs`. */
  function Logged(cfg: Config, seen: set<string>, challenges: seq<string>, llm: (Flag, nat) -> string,
                  fs: seq<Flag>): seq<Report>
    decreases |fs|
  {
    if fs == [] then []
    else
      var front := fs[..|fs| - 1];
      var last := fs[|fs| - 1];
      Logged(cfg, seen, challenges, llm, front)
        + (if last.flag in seen || last.flag in Values(front) then [] else [ReportFor(cfg, challenges, llm, last)])
  }

  /** Each value is reported at most once, and exactly the values of `fs`
      not seen before are reported. */
  lemma {:induction false} LoggedSpec(cfg: Config, seen: set<string>, challenges: seq<string>,
                                      llm: (Flag, nat) -> string, fs: seq<Flag>)
    ensures Distinct(ReportValues(Logged(cfg, seen, challenges, llm, fs)))
    ensures forall v :: v in ReportValues(Logged(cfg, seen, challenges, llm, fs)) <==> v in Values(fs) && v !in seen
    decreases |fs|
  {
    if fs != [] {
      var front := fs[..|fs| - 1];
      var last := fs[|fs| - 1];
      assert fs == front + [last];
      ValuesSnoc(front, last);
      LoggedSpec(cfg, seen, challenges, llm, front);
      var before := Logged(cfg, seen, challenges, llm, front);
      if !(last.flag in seen || last.flag in Values(front)) {
        var r := ReportFor(cfg, challenges, llm, last);
        assert Logged(cfg, seen, challenges, llm, fs) == before + [r];
        ReportValuesSnoc(before, r);
      } else {
        assert Logged(cfg, seen, challenges, llm, fs) == before;
      }
    }
  }

  /** The flags `dispatch` collects: those of every sniffer that returned,
      in sniffer order. */
  function Gathered(outcomes: seq<SniffOutcome>): seq<Flag>
    decreases |outcomes|
  {
    if outcomes == [] then []
    else
      var last := outcomes[|outcomes| - 1];
      Gathered(outcomes[..|outcomes| - 1]) + (if last.Sniffed? then last.flags else [])
  }

  lemma {:induction false} GatheredAppend(a: seq<SniffOutcome>, b: seq<SniffOutcome>)
    ensures Gathered(a + b) == Gathered(a) + Gathered(b)
    decreases |b|
  {
    if b == [] {
      assert a + b == a;
    } else {
      var front := b[..|b| - 1];
      assert (a + b)[..|a + b| - 1] == a + front;
      assert (a + b)[|a + b| - 1] == b[|b| - 1];
      GatheredAppend(a, front);
    }
  }

  /** A sniffer that raises costs only its own flags: the others are
      gathered as if it had not been there. */
  lemma FailureIsolated(a: seq<SniffOutcome>, b: seq<SniffOutcome>)
    ensures Gathered(a + [Raised] + b) == Gathered(a) + Gathered(b)
  {
    var x := a + [Raised];
    GatheredAppend(x, b);
    GatheredAppend(a, [Raised]);
    assert [Raised][..0] == [];
    assert Gathered([Raised]) == Gathered([Raised][..0]) + [];
  }

  /** The `flags += sniffer.sniff()` loop, an exception skipping the
      sniffer that raised it. */
  method GatherFlags(outcomes: seq<SniffOutcome>) returns (flags: seq<Flag>)
    ensures flags == Gathered(outcomes)
  {
    flags := [];
    for s := 0 to |outcomes|
      invariant flags == Gathered(outcomes[..s])
    {
      assert outcomes[..s + 1][..s] == outcomes[..s];
      match outcomes[s]
      case Raised =>
      case Sniffed(fs) =>
        flags := flags + fs;
    }
    assert outcomes[..|outcomes|] == outcomes;
  }

  lemma LoggedStep(cfg: Config, seen: set<string>, challenges: seq<string>, llm: (Flag, nat) -> string,
                   fs: seq<Flag>, i: nat)
    requires i < |fs|
    ensures Values(fs[..i + 1]) == Values(fs[..i]) + [fs[i].flag]
    ensures Logged(cfg, seen, challenges, llm, fs[..i + 1]) == Logged(cfg, seen, challenges, llm, fs[..i])
      + (if fs[i].flag in seen || fs[i].flag in Values(fs[..i]) then [] else [ReportFor(cfg, challenges, llm, fs[i])])
  {
    var prefix := fs[..i];
    assert fs[..i + 1] == prefix + [fs[i]];
    assert fs[..i + 1][..i] == prefix;
    ValuesSnoc(prefix, fs[i]);
  }

  /** The set of values reported so far. */
  function ReportSet(rs: seq<Report>): set<string> {
    set v | v in ReportValues(rs)
  }

  /** Reporting a value neither loaded nor reported keeps the reports
      distinct and adds just that value. */
  lemma AddReport(loaded: set<string>, rs: seq<Report>, r: Report)
    requires Distinct(ReportValues(rs)) && r.flag.flag !in loaded + ReportSet(rs)
    requires forall v :: v in ReportValues(rs) ==> v !in loaded
    ensures Distinct(ReportValues(rs + [r]))
    ensures ReportSet(rs + [r]) == ReportSet(rs) + {r.flag.flag}
    ensures forall v :: v in ReportValues(rs + [r]) ==> v !in loaded
  {
    ReportValuesSnoc(rs, r);
    var vs := ReportValues(rs);
    assert r.flag.flag !in vs;
    assert ReportValues(rs + [r]) == vs + [r.flag.flag];
  }

  /** `FOUND_THIS_SESSION` together with what has been reported. */
  class Hunter {
    const cfg: Config
    /** The values already reported, loaded or found this session. */
    var found: set<string>
    /** The values the session started with. */
    ghost const loaded: set<string>
    /** Every report made this session, in order: the lines of `flags.txt`
        and of `log.txt` and the notifications are read off these. */
    ghost var reports: seq<Report>

    ghost predicate Valid()
      reads this
    {
      && found == loaded + ReportSet(reports)
      && (forall v :: v in ReportValues(reports) ==> v !in loaded)
      && Distinct(ReportValues(reports))
    }

    constructor(cfg: Config, loaded: set<string>)
      ensures Valid()
      ensures this.cfg == cfg && this.loaded == loaded
      ensures found == loaded && reports == []
    {
      this.cfg := cfg;
      this.loaded := loaded;
      found := loaded;
      reports := [];
    }

    /** `log_flag`: a value already in the set is ignored altogether; any
        other is classified, reported (a notification always for Unknown,
        for a named challenge only with the webhook on) and added to the
        set, and nothing else is. */
    method LogFlag(f: Flag, challenges: seq<string>, llm: (Flag, nat) -> string)
      requires Valid()
      modifies this
      ensures Valid()
      ensures f.flag in old(found) ==> found == old(found) && reports == old(reports)
      ensures f.flag !in old(found) ==>
        found == old(found) + {f.flag} && reports == old(reports) + [ReportFor(cfg, challenges, llm, f)]
    {
      if f.flag in found {
        return;
      }
      var replies := RepliesFor(llm, f);
      var result, calls := Classify(cfg.ratio, replies, cfg.useLlm, f.context, challenges);
      var notice: Option<Notice> := None;
      if result.Unknown? {
        notice := Some(Notice("Unknown challenge", f.origin, f.flag));
      } else if cfg.useWebhook {
        notice := Some(Notice(result.name, f.origin, f.flag));
      }
      var r := Report(f, result, notice, calls);
      assert r == ReportFor(cfg, challenges, llm, f);
      AddReport(loaded, reports, r);
      reports := reports + [r];
      found := found + {f.flag};
    }

    /** The `for flag in consolidated: log_flag(flag)` loop: each flag in
        turn, so a value repeated later in `flags` is seen as found. */
    method LogAll(flags: seq<Flag>, challenges: seq<string>, llm: (Flag, nat) -> string)
      requires Valid()
      modifies this
      ensures Valid()
      ensures reports == old(reports) + Logged(cfg, old(found), challenges, llm, flags)
      ensures forall v :: v in found <==> v in old(found) || v in Values(flags)
    {
      ghost var seen := found;
      ghost var before := reports;
      for i := 0 to |flags|
        invariant Valid()
        invariant reports == before + Logged(cfg, seen, challenges, llm, flags[..i])
        invariant forall v :: v in found <==> v in seen || v in Values(flags[..i])
      {
        LoggedStep(cfg, seen, challenges, llm, flags, i);
        LogFlag(flags[i], challenges, llm);
      }
      assert flags[..|flags|] == flags;
    }

    /** `dispatch`: the flags of the sniffers that returned are gathered,
        consolidated and handed to `log_flag` one by one. */
    method Dispatch(outcomes: seq<SniffOutcome>, challenges: seq<string>, llm: (Flag, nat) -> string)
      requires Valid()
      modifies this
      ensures Valid()
      ensures reports == old(reports) + Logged(cfg, old(found), challenges, llm, Consolidate(Gathered(outcomes)))
      ensures forall v :: v in found <==> v in old(found) || v in Values(Gathered(outcomes))
    {
      var flags := GatherFlags(outcomes);
      var consolidated := ConsolidateFlags(flags);
      ConsolidateValues(flags);
      LogAll(consolidated, challenges, llm);
    }
  }

  // ---------------------------------------------------------------------
  // The ledger file (lines 226-229 and 243-245)

  /** Index of the first `'\n'`, or `|s|`. */
  function FirstNewline(s: string): (k: nat)
    ensures k <= |s| && '\n' !in s[..k]
    ensures k < |s| ==> s[k] == '\n'
    decreases |s|
  {
    if s == [] || s[0] == '\n' then 0
    else
      var k := FirstNewline(s[1..]);
      assert s[..k + 1] == [s[0]] + s[1..][..k];
      k + 1
  }

  /** The lines `for line in f` yields: each keeps its `'\n'`; a last line
      without one is yielded as it is. */
  function ReadLines(text: string): seq<string>
    decreases |text|
  {
    if text == [] then []
    else
      var k := FirstNewline(text);
      if k == |text| then [text] else [text[..k + 1]] + ReadLines(text[k + 1..])
  }

  /** The values the stripped lines give. */
  function StrippedSet(lines: seq<string>): set<string>
    decreases |lines|
  {
    if lines == [] then {} else {Strip(lines[0])} + StrippedSet(lines[1..])
  }

  /** The set a session starts with: the stripped lines of the ledger, or
      nothing when there is no ledger file. */
  function LedgerSet(file: Option<string>): set<string> {
    match file
    case None => {}
    case Some(text) => StrippedSet(ReadLines(text))
  }

  lemma {:induction false} StrippedSetMembers(lines: seq<string>)
    ensures forall v :: v in StrippedSet(lines) <==> exists k :: 0 <= k < |lines| && Strip(lines[k]) == v
    decreases |lines|
  {
    if lines != [] {
      StrippedSetMembers(lines[1..]);
      forall v | v in StrippedSet(lines)
        ensures exists k :: 0 <= k < |lines| && Strip(lines[k]) == v
      {
        if v != Strip(lines[0]) {
          assert v in StrippedSet(lines[1..]);
          var k :| 0 <= k < |lines[1..]| && Strip(lines[1..][k]) == v;
          assert Strip(lines[k + 1]) == v;
        }
      }
      forall v, k | 0 <= k < |lines| && Strip(lines[k]) == v
        ensures v in StrippedSet(lines)
      {
        if k > 0 {
          assert Strip(lines[1..][k - 1]) == v;
        }
      }
    }
  }

  /** Lines 226-229: every line of the ledger, stripped, goes into the set. */
  method LoadLedger(file: Option<string>) returns (found: set<string>)
    ensures found == LedgerSet(file)
  {
    found := {};
    if file.None? {
      return;
    }
    var lines := ReadLines(file.value);
    for i := 0 to |lines|
      invariant found + StrippedSet(lines[i..]) == StrippedSet(lines)
    {
      assert lines[i..][1..] == lines[i + 1..];
      found := found + {Strip(lines[i])};
    }
    assert lines[|lines|..] == [];
    assert found == StrippedSet(lines);
  }

  /** The text written for values in the given order: each followed by
      `"\n"`. */
  function Render(order: seq<string>): string
    decreases |order|
  {
    if order == [] then "" else order[0] + "\n" + Render(order[1..])
  }

  lemma {:induction false} RenderSnoc(order: seq<string>, x: string)
    ensures Render(order + [x]) == Render(order) + x + "\n"
    decreases |order|
  {
    if order != [] {
      assert (order + [x])[1..] == order[1..] + [x];
      RenderSnoc(order[1..], x);
    } else {
      assert [x][1..] == [];
    }
  }

  /** Lines 243-245: every value of the set, in whatever order the set
      yields them, written on its own line; `order` is the order used. */
  method FlushLedger(found: set<string>) returns (text: string, order: seq<string>)
    ensures text == Render(order)
    ensures Distinct(order)
    ensures forall v :: v in order <==> v in found
  {
    text := "";
    order := [];
    var rest := found;
    while rest != {}
      invariant text == Render(order)
      invariant Distinct(order)
      invariant forall v :: v in found <==> v in rest || v in order
      invariant forall v :: v in order ==> v !in rest
      decreases |rest|
    {
      var x :| x in rest;
      RenderSnoc(order, x);
      text := text + x + "\n";
      order := order + [x];
      rest := rest - {x};
    }
  }

  /** A value holding no line break (`'\n'`, or the `'\r'` that universal
      newlines would split at) and no white space at either end comes back
      unchanged, so a flushed set is loaded again as it was. */
  predicate LedgerSafe(v: string) {
    '\n' !in v && '\r' !in v && Unpadded(v)
  }

  lemma {:induction false} LedgerRoundTrip(order: seq<string>)
    requires forall k :: 0 <= k < |order| ==> LedgerSafe(order[k])
    ensures LedgerSet(Some(Render(order))) == set v | v in order
    decreases |order|
  {
    if order != [] {
      var x := order[0];
      var rest := order[1..];
      var tail := Render(rest);
      var text := x + "\n" + tail;
      assert Render(order) == text;
      assert text[..|x|] == x;
      assert FirstNewline(text) == |x| by {
        FirstNewlineAt(x, tail);
      }
      assert text[..|x| + 1] == x + "\n";
      assert text[|x| + 1..] == tail;
      assert ReadLines(text) == [x + "\n"] + ReadLines(tail);
      StripLine(x);
      LedgerRoundTrip(rest);
      assert ([x + "\n"] + ReadLines(tail))[1..] == ReadLines(tail);
      assert (set v | v in order) == {x} + (set v | v in rest);
    }
  }

  lemma FirstNewlineAt(x: string, tail: string)
    requires '\n' !in x
    ensures FirstNewline(x + "\n" + tail) == |x|
    decreases |x|
  {
    if x != [] {
      assert (x + "\n" + tail)[1..] == x[1..] + "\n" + tail;
      FirstNewlineAt(x[1..], tail);
    }
  }

  // ---------------------------------------------------------------------
  // A whole run of `main` (lines 226-245)

  /** The flag values of every flag the cycles gathered, in order. */
  function AllValues(cycles: seq<Cycle>): seq<string>
    decreases |cycles|
  {
    if cycles == [] then []
    else AllValues(cycles[..|cycles| - 1]) + Values(Gathered(cycles[|cycles| - 1].outcomes))
  }

  /** Load the ledger, run the cycles that complete before the interrupt
      (exactly one in test mode) and, unless in test mode, flush the set
      back. Across all cycles each value is reported at most once, and
      exactly the gathered values that were not in the ledger are. */
  method RunSession(cfg: Config, ledger: Option<string>, testMode: bool, cycles: seq<Cycle>)
    returns (written: Option<string>, ghost reports: seq<Report>, ghost flushOrder: seq<string>)
    requires testMode ==> |cycles| == 1
    ensures testMode <==> written.None?
    ensures Distinct(ReportValues(reports))
    ensures forall v :: v in ReportValues(reports) <==> v in AllValues(cycles) && v !in LedgerSet(ledger)
    ensures written.Some? ==> written.value == Render(flushOrder) && Distinct(flushOrder)
    ensures written.Some? ==> forall v :: v in flushOrder <==> v in LedgerSet(ledger) || v in AllValues(cycles)
  {
    var loaded := LoadLedger(ledger);
    var hunter := new Hunter(cfg, loaded);
    for c := 0 to |cycles|
      invariant hunter.Valid() && hunter.loaded == loaded
      invariant forall v :: v in hunter.found <==> v in loaded || v in AllValues(cycles[..c])
    {
      assert cycles[..c + 1][..c] == cycles[..c];
      var cycle := cycles[c];
      hunter.Dispatch(cycle.outcomes, cycle.challenges, cycle.llm);
    }
    assert cycles[..|cycles|] == cycles;
    reports := hunter.reports;
    assert forall v :: v in ReportValues(reports) ==> v in ReportSet(reports);
    if testMode {
      written := None;
      flushOrder := [];
    } else {
      var text;
      text, flushOrder := FlushLedger(hunter.found);
      written := Some(text);
    }
  }
}
