# flagger, modelled in Dafny

flagger hunts for leaked CTF flags. Two sniffers search the web:
a DuckDuckGo text search whose result pages are fetched, and a GitHub code
search whose files are fetched once their latest commit is recent enough.
Every regex match that lies on a single line of a page or file becomes a
flag record; a match spread over several lines gives none. Its context is
the window of at most 100 lines (50 before, 49 after) around the first line
that holds it. The GitHub sniffer cuts each window from the text left by
the previous match rather than from the file, so it can drop a later match
(see "## Findings"). Each dispatch cycle
merges the records of all sniffers by flag value. It then reports each value
not yet seen this session: the value is logged, attributed to a challenge by
case-insensitive name votes (with an optional language-model fallback), and
announced by a notification. The session's set of reported values is loaded
from a ledger file at start-up and written back on shutdown.

The model has these parts:

| file | module | models |
|---|---|---|
| `Base.dfy` | `Base` | `Option`, the outcome of a request (`Fetch`), first-match search |
| `Text.dfy` | `Text` | Python's `lower`, `in`, `count`, `join`, `splitlines`, `strip` on `seq<char>` |
| `Flags.dfy` | `Flags` | the `Flag` record and `consolidate_flags` |
| `LineSearch.dfy` | `LineSearch` | the first-line search and ±50-line window both sniffers use |
| `DuckSniffer.dfy` | `DuckSniffer` | `DuckSniffer.sniff` |
| `GithubSniffer.dfy` | `GithubSniffer` | `GithubSniffer.sniff` |
| `Classifier.dfy` | `Classifier` | the voting and choice inside `log_flag` |
| `Session.dfy` | `Session` | `FOUND_THIS_SESSION`, `log_flag`, `dispatch`, the ledger, a run of `main` |

Each loop of the source that updates variables is a method proved against
a specification function (for example, `ConsolidateFlags` against
`Consolidate`, `ScanFile` against `FileFlags`, `ModelPass` against
`ModelVotes`). The lemmas state what the source promises about those
functions. The session set is a field of the class `Session.Hunter`. Its
reports are a ghost sequence, and `Valid()` ties the two together.

Inputs stand in for the parts of the program that talk to the world:

- The sniffers receive the search results, the requests' outcomes and the regex matches as data. A request that raises is `FetchFailed`; a sniffer that raises is `Raised`.
- `fuzz.ratio` is a function parameter. The model's replies are a function from the attempt number to a string.
- Commit dates are integers.
- The ledger file is an `Option<string>`, with `None` when the file does not exist.

A few places where the code behaves unexpectedly are modelled as written:

- With `use_llm` on, the model gate of `log_flag` opens when the vote list is empty or has more than one entry (`len(matches) > 1`). It does not test the number of distinct names, so one of several challenges named twice in the context opens it (`Classifier.RepeatedNameOpensGate`).
- In a model reply, a challenge name is looked for before the `FALSE POSITIVE` check. A reply holding both counts as a vote.
- An Unknown result is always notified. Only a named result depends on `use_discord_webhook`.

## Model

| member | source | states |
|---|---|---|
| Flags.ConsolidateFlags | flagger/sniffers/__init__.py:20-28 | the dictionary loop returns exactly `Consolidate(flags)`: one merged record per value, in order of the values' first appearance |
| Flags.ConsolidateValues | flagger/sniffers/__init__.py:21-28 | the output values are the distinct input values: no repeats, the same set, and ordered by each value's first index in the input |
| Flags.NoDuplicateValues | flagger/sniffers/__init__.py:21-28 | no two output records share a flag value |
| Flags.ConsolidateMerges | flagger/sniffers/__init__.py:23-27 | each record's origin joins, with `", "`, the origins of all input records with its value, in input order; its context joins their contexts with `" "` |
| Flags.NothingDropped | flagger/sniffers/__init__.py:22-27 | the merged record has one origin and one context per input record with that value |
| Flags.ConsolidateLength | flagger/sniffers/__init__.py:22-28 | output length is at most input length, equal exactly when the input values are distinct; empty input gives empty output |
| Flags.ConsolidateDistinct | flagger/sniffers/__init__.py:26-27 | input with distinct values comes back unchanged |
| Flags.ConsolidateIdempotent | flagger/sniffers/__init__.py:20-28 | consolidating a consolidated list gives the same list |
| LineSearch.FindFlagLine | flagger/sniffers/duckduckgo.py:38-42 | the index is the lowest line containing the match, or -1 exactly when no line contains it |
| LineSearch.Window | flagger/sniffers/duckduckgo.py:45-46 | `0 <= start <= i < end <= len(lines)`, at most 100 lines, and a line is in the window exactly when it is at most 50 lines before or 49 after line `i` |
| LineSearch.ContextHoldsLine | flagger/sniffers/duckduckgo.py:45-47 | the context cut around a line holds whatever that line holds |
| LineSearch.ContextLines | flagger/sniffers/github.py:66-68 | splitting a context again gives the window's lines, less a final empty line, so at most 100 and at most the page's |
| LineSearch.MatchFlag | flagger/sniffers/duckduckgo.py:38-48 | a match gives at most one record, carrying the match as its value and the page's origin |
| LineSearch.ScanPage | flagger/sniffers/duckduckgo.py:36-48 | the match loop produces `MatchFlags` of the page's full lines |
| LineSearch.MatchFlagsValues | flagger/sniffers/duckduckgo.py:36-48 | one record per match that lies on some line, in match order, repeats kept; a match on no line gives none |
| LineSearch.MatchFlagsRecords | flagger/sniffers/duckduckgo.py:44-48 | every record has the given origin, the window around the first line holding its value as context, and its value in that context |
| LineSearch.OnSomeLineAll | flagger/sniffers/duckduckgo.py:36-48 | when every match lies on some line, every match yields a record |
| DuckSniffer.Sniff | flagger/sniffers/duckduckgo.py:16-53 | a failed search raises; otherwise the records are those of every loaded page in result order, an empty search giving none |
| DuckSniffer.FailedPageSkipped | flagger/sniffers/duckduckgo.py:50-51 | a page whose fetch fails contributes nothing and leaves the records of the other pages unchanged |
| DuckSniffer.PageFlagsSpec | flagger/sniffers/duckduckgo.py:36-48 | a page's records are one per match found on a line, with the page URL as origin and the context cut from the full page |
| GithubSniffer.Origin | flagger/sniffers/github.py:69 | a record's origin is `https://github.com/` followed by the repository's full name |
| GithubSniffer.HitsFlagsOrigins | flagger/sniffers/github.py:57-69 | every record the sniffer returns has as origin `https://github.com/` followed by the full name of one of the hits |
| GithubSniffer.ScanFile | flagger/sniffers/github.py:57-69 | the match loop, which reassigns `content`, produces `FileFlags` of the file |
| GithubSniffer.Sniff | flagger/sniffers/github.py:17-71 | a failed search raises, and so does any failed commit or file request; otherwise the outcome is the records of every hit in order |
| GithubSniffer.RaiseAborts | flagger/sniffers/github.py:36-53 | once one hit has raised, the whole sniffer has raised |
| GithubSniffer.FailedHitAborts | flagger/sniffers/github.py:39-53 | one failing hit discards the records of every other hit |
| GithubSniffer.StaleHitSkipped | flagger/sniffers/github.py:43-46 | a hit whose latest commit is dated strictly before the start contributes exactly as if it were absent; a hit without commits is never stale |
| GithubSniffer.FileFlagsRecords | flagger/sniffers/github.py:57-69 | every record has the repository origin and one of the matches as value, holds its value in its context, and has at most 100 context lines and never more than the file had |
| GithubSniffer.FileFlagsShrink | flagger/sniffers/github.py:68 | each record's context has no more lines than the previous record's |
| GithubSniffer.NarrowingLosesDistantMatch | flagger/sniffers/github.py:68 | a second match lying outside the first match's window is dropped by the loop as written but recorded by the full-file scan |
| GithubSniffer.NarrowingExample | flagger/sniffers/github.py:57-69 | a concrete 62-line file where the loop as written gives one record and the full-file scan two |
| Classifier.ExactPass | flagger/__main__.py:104-109 | the exact-vote loop returns `ExactVotes`: for each name in list order, one vote per occurrence |
| Classifier.ExactVoteCount | flagger/__main__.py:105-109 | a name's exact votes number its non-overlapping, case-insensitive occurrences in the context, times the number of times it is listed |
| Classifier.ExactVoteMembers | flagger/__main__.py:105-106 | a name has an exact vote exactly when it is listed and occurs in the lower-cased context |
| Classifier.ExactVotesAppend | flagger/__main__.py:105-109 | the votes of a list are those of its first part followed by those of the rest, so each name's votes keep list order |
| Classifier.FuzzyVote | flagger/__main__.py:110-113 | at most one fuzzy vote: none exactly when no name's ratio exceeds 80, otherwise the first name whose ratio does |
| Classifier.FuzzyPass | flagger/__main__.py:110-113 | the fuzzy loop appends exactly `FuzzyVote` to the votes |
| Classifier.ReplyVote | flagger/__main__.py:158-161 | a reply casts at most one vote, for a listed challenge |
| Classifier.ReplyVoteSpec | flagger/__main__.py:158-161 | a reply votes for the first challenge whose lower-cased name it contains, and for none exactly when it contains none |
| Classifier.ReplyPass | flagger/__main__.py:158-163 | the reply loop returns `ReplyVote`, and the attempt stops exactly when that vote is cast or the reply says `FALSE POSITIVE` |
| Classifier.ModelVotes | flagger/__main__.py:115-163 | the fallback casts at most one vote, for a listed challenge |
| Classifier.ModelCalls | flagger/__main__.py:116-163 | the model is asked at least once and at most twice |
| Classifier.ModelStep | flagger/__main__.py:157-163 | an attempt that votes or says `FALSE POSITIVE` ends the loop after one query; any other passes to the next attempt |
| Classifier.ModelPass | flagger/__main__.py:115-163 | the two-attempt loop returns `ModelVotes` and reads exactly `ModelCalls` replies |
| Classifier.ModelVotesSpec | flagger/__main__.py:116-163 | no vote exactly when the first reply names nothing and either says `FALSE POSITIVE` or the second names nothing; a vote comes from the first reply, or from the second when the first did not stop the loop |
| Classifier.TopIndex | flagger/__main__.py:169-170 | the chosen vote has the highest occurrence count, and every earlier vote a lower one: the head of the stable descending sort |
| Classifier.Classify | flagger/__main__.py:103-170 | the passes, gate and choice return `Attribute` and make `CallsFor` model queries |
| Classifier.FinalVotesAreChallenges | flagger/__main__.py:104-163 | every surviving vote names a listed challenge |
| Classifier.AttributeSpec | flagger/__main__.py:164-170 | Unknown exactly when no vote survives; otherwise a listed challenge, the earliest vote among those with the highest occurrence count |
| Classifier.SingleVoteKept | flagger/__main__.py:114 | a single vote passes the gate, with or without the model, and names the result |
| Classifier.GateDiscardsVotes | flagger/__main__.py:114-116 | once the gate opens the earlier votes are discarded: at most one vote, from the replies, after one or two queries |
| Classifier.FalsePositiveStops | flagger/__main__.py:162-163 | a first reply saying `FALSE POSITIVE` ends the fallback after one query, with that reply's vote, if any |
| Classifier.RepeatedNameOpensGate | flagger/__main__.py:105-114 | a context naming one of two challenges twice casts two votes, so with the model on the gate opens |
| Session.ReportFor | flagger/__main__.py:164-172 | the report carries the classifier's attribution; a notification is sent exactly when the result is Unknown or the webhook is on, with challenge field "Unknown challenge" or the name |
| Session.LoggedSpec | flagger/__main__.py:99-100 | a pass of `log_flag` reports each value at most once, and exactly the values not seen before |
| Session.GatherFlags | flagger/__main__.py:177-184 | the gather loop returns the flags of every sniffer that returned, in sniffer order |
| Session.FailureIsolated | flagger/__main__.py:179-184 | a sniffer that raises contributes nothing and the other sniffers' flags are gathered as before |
| Session.Hunter.LogFlag | flagger/__main__.py:98-173 | a seen value changes nothing and is not reported; an unseen one is reported once and becomes the only value added to the set |
| Session.Hunter.LogAll | flagger/__main__.py:186-187 | logging the flags in turn adds the reports `Logged` gives for them, and the set grows by exactly their values |
| Session.Hunter.Dispatch | flagger/__main__.py:175-187 | the reports added are `Logged` over the consolidated gathered flags, and the set grows by exactly the gathered values |
| Session.LoadLedger | flagger/__main__.py:226-229 | the loaded set is the stripped lines of the ledger, or empty when there is no ledger |
| Session.StrippedSetMembers | flagger/__main__.py:228-229 | a value is loaded exactly when some line of the ledger strips to it |
| Session.FlushLedger | flagger/__main__.py:243-245 | the text written is every value of the set once, each followed by `"\n"`, in some order |
| Session.LedgerRoundTrip | flagger/__main__.py:226-245 | values without `'\n'` or `'\r'` and without surrounding white space, once flushed, load back as the same set |
| Session.RunSession | flagger/__main__.py:226-245 | across all cycles each value is reported at most once, exactly the gathered values not in the ledger are reported, test mode writes nothing, and otherwise the ledger written holds the loaded and gathered values |

## Left out

- HTTP and parsing: the searches, `raise_for_status`, base64 and UTF-8 decoding, and BeautifulSoup. Their results and failures are inputs.
- The regular expression and `findall`. The list of matches is an input.
- `test.json`, written by the GitHub sniffer at flagger/sniffers/github.py:31-32. It is output only.
- `fuzz.ratio` itself. It is a library function returning a float; the model takes it as a parameter of type `(string, string) -> real` and compares it with `80.0`.
- The `ollama.chat` call and its prompt. Only the parsing of its replies is modelled. Building the prompt raises `IndexError` when fewer than two challenges exist (flagger/__main__.py:142-148), and the model does not capture that exception. It would escape `log_flag` (flagger/__main__.py:186-187 has no `try`), skip the cycle's remaining flags, and, outside test mode, end the process without the ledger flush at flagger/__main__.py:243-245, since lines 235-242 catch only `KeyboardInterrupt`.
- The Discord payloads (embed layout, colour, timestamp) and `discord_status_embed`. Notifications are modelled as their challenge, URL and flag.
- The text written to `flags.txt` and `log.txt`. Both are read off the ghost `reports` sequence: one value and one attribution per report.
- `backend.get_challenges()`, which `dispatch` calls again for every flag. The model uses one challenge list per cycle, so it does not capture a list that changes while a cycle runs, or a backend call that raises.
- An exception raised inside `log_flag` after the `flags.txt` write, such as a failed notification. It would leave a value written but not added to the set, skip the cycle's remaining flags, and, outside test mode, end the process without the ledger flush; the model does not capture it.
- The scheduler, `time.sleep`, `argparse`, the config file and the backends. A run is modelled as the sequence of cycles that complete before the interrupt. An interrupt in the middle of a cycle is not modelled.
- `str.lower` maps only ASCII letters here. Non-ASCII case mapping is not modelled.
- Reading the ledger splits lines after `'\n'` only. Universal-newline translation of `'\r'` is not modelled; `LedgerRoundTrip` therefore asks its values to hold no `'\r'` either, so that it holds under Python's reading too.
- A flag value with white space at either end is loaded back stripped (flagger/__main__.py:229). After a restart the value read is not the value found, so the same flag can be reported again. The model states this only through `Strip`; `LedgerRoundTrip` covers unpadded values alone.
- TopIndex: the in-place sort at flagger/__main__.py:169 is modelled only through its first element, the only one the code reads.

## Findings

| source | as written | input that shows it | evidently intended | confidence | as-written member | corrected member |
|---|---|---|---|---|---|---|
| flagger/sniffers/github.py:68 | `content` is replaced by the window around each found match, so later matches from the same file are searched only in that window | a file with a match on line 0 and another on line 61: the second is found by `findall` but no line of the first window holds it, so it is dropped | the window kept in its own variable, as the DuckDuckGo sniffer does, so every match is searched in the whole file | high, not executed | GithubSniffer.NarrowingLosesDistantMatch | LineSearch.ScanPage |
