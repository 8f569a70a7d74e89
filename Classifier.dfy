/** The classification step of `log_flag` (flagger/__main__.py:103-170):
    which challenge a found flag belongs to. The names vote: once per
    occurrence in the flag's context, then once more for the first name the
    context resembles; when the vote is empty or split, the votes are thrown
    away and a language model is asked, twice at most; the name occurring
    most often in the context wins. `fuzz.ratio` and the model's replies
    are inputs. */
module Classifier {
  import opened Base
  import opened Text
  import opened Flags

  /** The challenge a flag is attributed to. */
  datatype Attribution = Unknown | Named(name: string)

  /** `fuzz.ratio(context, name)` must exceed this for a fuzzy vote. */
  const FuzzyThreshold: real := 80.0

  /** The literal that makes the model's reply end the fallback. */
  const FalsePositive: string := "FALSE POSITIVE"

  /** The language model is asked at most this many times per flag. */
  const Attempts: nat := 2

  /** `flag.context.lower().count(challenge.lower())`: the exact vote count
      of a name, and also the sort key of the final choice. */
  function Key(context: string, name: string): nat {
    Count(Lower(context), Lower(name))
  }

  function Repeat(x: string, n: nat): (r: seq<string>)
    ensures |r| == n && forall k :: 0 <= k < n ==> r[k] == x
  {
    seq(n, _ => x)
  }

  // ---------------------------------------------------------------------
  // The exact pass (lines 104-109)

  /** One run of `Key` votes per name, in challenge-list order. */
  function ExactVotes(context: string, challenges: seq<string>): seq<string>
    decreases |challenges|
  {
    if challenges == [] then []
    else
      var last := challenges[|challenges| - 1];
      ExactVotes(context, challenges[..|challenges| - 1]) + Repeat(last, Key(context, last))
  }

  /** The nested loop: a name found in the context (`find != -1`) is
      appended once per `count`ed occurrence. */
  method ExactPass(context: string, challenges: seq<string>) returns (votes: seq<string>)
    ensures votes == ExactVotes(context, challenges)
  {
    votes := [];
    var lowered := Lower(context);
    for i := 0 to |challenges|
      invariant votes == ExactVotes(context, challenges[..i])
    {
      assert challenges[..i + 1][..i] == challenges[..i];
      var name := challenges[i];
      var before := votes;
      if Contains(lowered, Lower(name)) {
        var n := Count(lowered, Lower(name));
        for j := 0 to n
          invariant votes == before + Repeat(name, j)
        {
          assert Repeat(name, j + 1) == Repeat(name, j) + [name];
          votes := votes + [name];
        }
      } else {
        CountPositiveIffContains(lowered, Lower(name));
        assert Repeat(name, 0) == [];
        assert votes == before + Repeat(name, 0);
      }
    }
    assert challenges[..|challenges|] == challenges;
  }

  lemma {:induction false} ExactVotesAppend(context: string, a: seq<string>, b: seq<string>)
    ensures ExactVotes(context, a + b) == ExactVotes(context, a) + ExactVotes(context, b)
    decreases |b|
  {
    if b == [] {
      assert a + b == a;
    } else {
      var front := b[..|b| - 1];
      assert (a + b)[..|a + b| - 1] == a + front;
      assert (a + b)[|a + b| - 1] == b[|b| - 1];
      ExactVotesAppend(context, a, front);
    }
  }

  /** Each name gets exactly as many exact votes as its non-overlapping,
      case-insensitive occurrences in the context (counted once per time it
      is listed). */
  lemma {:induction false} ExactVoteCount(context: string, challenges: seq<string>, name: string)
    ensures multiset(ExactVotes(context, challenges))[name]
      == multiset(challenges)[name] * Key(context, name)
    decreases |challenges|
  {
    if challenges != [] {
      var front := challenges[..|challenges| - 1];
      var last := challenges[|challenges| - 1];
      assert challenges == front + [last];
      ExactVoteCount(context, front, name);
      var block := Repeat(last, Key(context, last));
      RepeatMultiset(last, Key(context, last), name);
      var before := ExactVotes(context, front);
      assert ExactVotes(context, challenges) == before + block;
      var listed := multiset(front)[name];
      var key := Key(context, name);
      var got := multiset(before)[name];
      assert got == listed * key;
      assert multiset(before + block)[name] == got + multiset(block)[name];
      assert multiset(challenges)[name] == listed + multiset([last])[name];
      if last == name {
        MulSucc(listed, key);
      }
    }
  }

  lemma ProductPositive(a: nat, b: nat)
    ensures a * b > 0 <==> a > 0 && b > 0
  {
    if a > 0 && b > 0 {
      assert a * b >= b;
    }
  }

  lemma MulSucc(a: nat, b: nat)
    ensures (a + 1) * b == a * b + b
  {
  }

  lemma {:induction false} RepeatMultiset(x: string, n: nat, name: string)
    ensures multiset(Repeat(x, n))[name] == if x == name then n else 0
    decreases n
  {
    if n > 0 {
      assert Repeat(x, n) == Repeat(x, n - 1) + [x];
      RepeatMultiset(x, n - 1, name);
    } else {
      assert Repeat(x, n) == [];
    }
  }

  /** A name has an exact vote exactly when it is a challenge found in the
      lower-cased context. */
  lemma {:induction false} ExactVoteMembers(context: string, challenges: seq<string>, name: string)
    ensures name in ExactVotes(context, challenges)
      <==> name in challenges && Contains(Lower(context), Lower(name))
  {
    var votes := ExactVotes(context, challenges);
    ExactVoteCount(context, challenges, name);
    CountPositiveIffContains(Lower(context), Lower(name));
    var listed := multiset(challenges)[name];
    var key := Key(context, name);
    assert multiset(votes)[name] == listed * key;
    assert name in votes <==> multiset(votes)[name] > 0;
    assert name in challenges <==> listed > 0;
    ProductPositive(listed, key);
  }

  // ---------------------------------------------------------------------
  // The fuzzy pass (lines 110-113)

  /** At most one vote: the first name whose similarity to the whole context
      exceeds the threshold. */
  function FuzzyVote(ratio: (string, string) -> real, context: string, challenges: seq<string>): (v: seq<string>)
    ensures |v| <= 1
    ensures v != [] ==> v[0] in challenges
    ensures v == [] <==> forall k :: 0 <= k < |challenges| ==> ratio(context, challenges[k]) <= FuzzyThreshold
    ensures v != [] ==> exists k :: (0 <= k < |challenges| && challenges[k] == v[0]
      && ratio(context, v[0]) > FuzzyThreshold
      && forall j :: 0 <= j < k ==> ratio(context, challenges[j]) <= FuzzyThreshold)
  {
    match FirstWhere(challenges, name => ratio(context, name) > FuzzyThreshold)
    case None => []
    case Some(k) => [challenges[k]]
  }

  method FuzzyPass(ratio: (string, string) -> real, context: string, challenges: seq<string>, votes: seq<string>)
    returns (votes': seq<string>)
    ensures votes' == votes + FuzzyVote(ratio, context, challenges)
  {
    var hit := FindFirst(challenges, name => ratio(context, name) > FuzzyThreshold);
    votes' := votes;
    if hit.Some? {
      votes' := votes' + [challenges[hit.value]];
    }
  }

  // ---------------------------------------------------------------------
  // The gate and the language-model fallback (lines 114-163)

  /** The model is consulted when `use_llm` is on and the vote list is
      empty or longer than one: two votes for the same name count as
      split. */
  predicate NeedsModel(votes: seq<string>, useLlm: bool) {
    useLlm && (votes == [] || |votes| > 1)
  }

  /** The vote a reply casts: the first challenge whose lower-cased name
      occurs in the lower-cased reply. */
  function ReplyVote(challenges: seq<string>, reply: string): (v: seq<string>)
    ensures |v| <= 1
    ensures v != [] ==> v[0] in challenges
  {
    match FirstWhere(challenges, name => Contains(Lower(reply), Lower(name)))
    case None => []
    case Some(k) => [challenges[k]]
  }

  /** A reply votes for a challenge it mentions, ignoring case, with no
      earlier challenge mentioned; it votes for none when it mentions none. */
  lemma ReplyVoteSpec(challenges: seq<string>, reply: string)
    ensures var v := ReplyVote(challenges, reply);
      && (v == [] <==> forall k :: 0 <= k < |challenges| ==> !Contains(Lower(reply), Lower(challenges[k])))
      && (v != [] ==> exists k :: (0 <= k < |challenges| && challenges[k] == v[0]
            && Contains(Lower(reply), Lower(v[0]))
            && forall j :: 0 <= j < k ==> !Contains(Lower(reply), Lower(challenges[j]))))
  {
    var v := ReplyVote(challenges, reply);
    var hit := FirstWhere(challenges, name => Contains(Lower(reply), Lower(name)));
    if hit.Some? {
      assert v[0] == challenges[hit.value];
    }
  }

  /** The `for challenge in challenges` loop over one reply, and whether
      the attempt ends the fallback. */
  method ReplyPass(challenges: seq<string>, reply: string) returns (votes: seq<string>, stop: bool)
    ensures votes == ReplyVote(challenges, reply)
    ensures stop == Stops(challenges, reply)
  {
    votes := [];
    var hit := FindFirst(challenges, name => Contains(Lower(reply), Lower(name)));
    if hit.Some? {
      votes := votes + [challenges[hit.value]];
    }
    stop := Contains(reply, FalsePositive) || votes != [];
  }

  /** An attempt ends the fallback when it cast a vote or its reply holds
      the case-sensitive `FALSE POSITIVE`. */
  predicate Stops(challenges: seq<string>, reply: string) {
    ReplyVote(challenges, reply) != [] || Contains(reply, FalsePositive)
  }

  /** The vote of the fallback from attempt `k` on, `reply(k)` being the
      model's answer to attempt `k`. */
  function ModelVotes(challenges: seq<string>, reply: nat -> string, k: nat): (v: seq<string>)
    ensures |v| <= 1
    ensures v != [] ==> v[0] in challenges
    decreases Attempts - k
  {
    if k >= Attempts then []
    else if Stops(challenges, reply(k)) then ReplyVote(challenges, reply(k))
    else ModelVotes(challenges, reply, k + 1)
  }

  /** How many times the model is asked from attempt `k` on. */
  function ModelCalls(challenges: seq<string>, reply: nat -> string, k: nat): (n: nat)
    ensures k < Attempts ==> 1 <= n <= Attempts - k
    ensures k >= Attempts ==> n == 0
    decreases Attempts - k
  {
    if k >= Attempts then 0
    else if Stops(challenges, reply(k)) then 1
    else 1 + ModelCalls(challenges, reply, k + 1)
  }

  /** One attempt of the fallback: the attempt that stops gives its vote
      and ends the count; one that does not leaves no vote and hands over to
      the next. */
  lemma ModelStep(challenges: seq<string>, reply: nat -> string, k: nat, votes: seq<string>, stop: bool)
    requires k < Attempts
    requires votes == ReplyVote(challenges, reply(k)) && stop == Stops(challenges, reply(k))
    ensures stop ==> ModelVotes(challenges, reply, k) == votes && ModelCalls(challenges, reply, k) == 1
    ensures !stop ==> votes == []
    ensures !stop ==> ModelVotes(challenges, reply, k) == ModelVotes(challenges, reply, k + 1)
    ensures !stop ==> ModelCalls(challenges, reply, k) == 1 + ModelCalls(challenges, reply, k + 1)
  {
  }

  /** The `for _ in range(2)` loop; it also returns how many replies it
      read. */
  method ModelPass(challenges: seq<string>, reply: nat -> string) returns (votes: seq<string>, calls: nat)
    ensures votes == ModelVotes(challenges, reply, 0)
    ensures calls == ModelCalls(challenges, reply, 0)
  {
    votes := [];
    calls := 0;
    for attempt := 0 to Attempts
      invariant votes == [] && calls == attempt
      invariant ModelVotes(challenges, reply, 0) == ModelVotes(challenges, reply, attempt)
      invariant ModelCalls(challenges, reply, 0) == attempt + ModelCalls(challenges, reply, attempt)
    {
      var stop;
      votes, stop := ReplyPass(challenges, reply(attempt));
      calls := calls + 1;
      ModelStep(challenges, reply, attempt, votes, stop);
      if stop {
        return;
      }
    }
  }

  // ---------------------------------------------------------------------
  // The final choice (lines 164-170)

  /** The first vote of `votes` sorted by `Key`, highest first: Python's
      sort is stable, so among the votes with the highest key the earliest
      comes first. */
  function TopIndex(context: string, votes: seq<string>): (r: nat)
    requires votes != []
    ensures r < |votes|
    ensures forall j :: 0 <= j < |votes| ==> Key(context, votes[j]) <= Key(context, votes[r])
    ensures forall j :: 0 <= j < r ==> Key(context, votes[j]) < Key(context, votes[r])
    decreases |votes|
  {
    if |votes| == 1 then 0
    else
      var r := TopIndex(context, votes[..|votes| - 1]);
      if Key(context, votes[|votes| - 1]) > Key(context, votes[r]) then |votes| - 1 else r
  }

  /** The votes left once the passes and the gate have run. */
  function FinalVotes(ratio: (string, string) -> real, reply: nat -> string, useLlm: bool,
                      context: string, challenges: seq<string>): seq<string>
  {
    var first := ExactVotes(context, challenges) + FuzzyVote(ratio, context, challenges);
    if NeedsModel(first, useLlm) then ModelVotes(challenges, reply, 0) else first
  }

  /** The attribution `log_flag` writes to the log. */
  function Attribute(ratio: (string, string) -> real, reply: nat -> string, useLlm: bool,
                     context: string, challenges: seq<string>): Attribution
  {
    var votes := FinalVotes(ratio, reply, useLlm, context, challenges);
    if votes == [] then Unknown else Named(votes[TopIndex(context, votes)])
  }

  /** Replies read while classifying a flag. */
  function CallsFor(ratio: (string, string) -> real, reply: nat -> string, useLlm: bool,
                    context: string, challenges: seq<string>): nat
  {
    var first := ExactVotes(context, challenges) + FuzzyVote(ratio, context, challenges);
    if NeedsModel(first, useLlm) then ModelCalls(challenges, reply, 0) else 0
  }

  /** Lines 103-170 of `log_flag`: the passes, the gate and the choice. */
  method Classify(ratio: (string, string) -> real, reply: nat -> string, useLlm: bool,
                  context: string, challenges: seq<string>)
    returns (result: Attribution, calls: nat)
    ensures result == Attribute(ratio, reply, useLlm, context, challenges)
    ensures calls == CallsFor(ratio, reply, useLlm, context, challenges)
  {
    var matches := ExactPass(context, challenges);
    matches := FuzzyPass(ratio, context, challenges, matches);
    calls := 0;
    if (matches == [] || |matches| > 1) && useLlm {
      matches, calls := ModelPass(challenges, reply);
    }
    if matches == [] {
      result := Unknown;
    } else {
      var top := TopIndex(context, matches);
      result := Named(matches[top]);
    }
  }

  // ---------------------------------------------------------------------
  // Properties of the whole classification

  /** Every vote the passes cast names a challenge. */
  lemma FinalVotesAreChallenges(ratio: (string, string) -> real, reply: nat -> string, useLlm: bool,
                                context: string, challenges: seq<string>)
    ensures forall v :: v in FinalVotes(ratio, reply, useLlm, context, challenges) ==> v in challenges
  {
    var exact := ExactVotes(context, challenges);
    var fuzzy := FuzzyVote(ratio, context, challenges);
    var first := exact + fuzzy;
    if NeedsModel(first, useLlm) {
      var m := ModelVotes(challenges, reply, 0);
      assert FinalVotes(ratio, reply, useLlm, context, challenges) == m;
      assert forall v :: v in m ==> v == m[0];
    } else {
      assert FinalVotes(ratio, reply, useLlm, context, challenges) == first;
      forall v | v in first
        ensures v in challenges
      {
        if v in exact {
          ExactVoteMembers(context, challenges, v);
        } else {
          assert v == fuzzy[0];
        }
      }
    }
  }

  /** A flag is Unknown exactly when no vote survives; otherwise it is named
      after a challenge: the earliest surviving vote among those occurring
      most often in the context. */
  lemma AttributeSpec(ratio: (string, string) -> real, reply: nat -> string, useLlm: bool,
                      context: string, challenges: seq<string>)
    ensures var votes := FinalVotes(ratio, reply, useLlm, context, challenges);
      && (Attribute(ratio, reply, useLlm, context, challenges) == Unknown <==> votes == [])
      && (Attribute(ratio, reply, useLlm, context, challenges).Named? ==>
            var name := Attribute(ratio, reply, useLlm, context, challenges).name;
            && name in challenges
            && exists r :: 0 <= r < |votes| && votes[r] == name
                 && (forall j :: 0 <= j < |votes| ==> Key(context, votes[j]) <= Key(context, name))
                 && (forall j :: 0 <= j < r ==> Key(context, votes[j]) < Key(context, name)))
  {
    FinalVotesAreChallenges(ratio, reply, useLlm, context, challenges);
    var votes := FinalVotes(ratio, reply, useLlm, context, challenges);
    if votes != [] {
      var r := TopIndex(context, votes);
      assert votes[r] in votes;
    }
  }

  /** Without the model, one name found exactly once and no fuzzy vote
      elsewhere names that challenge; with the model a single vote is also
      kept (the gate lets exactly one vote through). */
  lemma SingleVoteKept(ratio: (string, string) -> real, reply: nat -> string, useLlm: bool,
                       context: string, challenges: seq<string>)
    requires |ExactVotes(context, challenges) + FuzzyVote(ratio, context, challenges)| == 1
    ensures Attribute(ratio, reply, useLlm, context, challenges)
      == Named((ExactVotes(context, challenges) + FuzzyVote(ratio, context, challenges))[0])
  {
    var votes := ExactVotes(context, challenges) + FuzzyVote(ratio, context, challenges);
    assert FinalVotes(ratio, reply, useLlm, context, challenges) == votes;
    assert TopIndex(context, votes) == 0;
  }

  /** When the gate opens, every earlier vote is discarded: the result
      depends on the replies alone and the model is asked once or twice. */
  lemma GateDiscardsVotes(ratio: (string, string) -> real, reply: nat -> string,
                          context: string, challenges: seq<string>)
    requires NeedsModel(ExactVotes(context, challenges) + FuzzyVote(ratio, context, challenges), true)
    ensures FinalVotes(ratio, reply, true, context, challenges) == ModelVotes(challenges, reply, 0)
    ensures |FinalVotes(ratio, reply, true, context, challenges)| <= 1
    ensures 1 <= CallsFor(ratio, reply, true, context, challenges) <= Attempts
  {
  }

  /** A reply naming no challenge but saying `FALSE POSITIVE` ends the
      fallback at once with no vote; a reply that names a challenge wins
      even when it also says `FALSE POSITIVE`. */
  lemma FalsePositiveStops(challenges: seq<string>, reply: nat -> string)
    requires Contains(reply(0), FalsePositive)
    ensures ModelVotes(challenges, reply, 0) == ReplyVote(challenges, reply(0))
    ensures ModelCalls(challenges, reply, 0) == 1
  {
  }

  /** The fallback casts no vote exactly when the first reply names no
      challenge and either says `FALSE POSITIVE` or is followed by a second
      reply naming none; a vote it casts comes from the first reply, or from
      the second when the first did not end the loop. */
  lemma ModelVotesSpec(challenges: seq<string>, reply: nat -> string)
    ensures ModelVotes(challenges, reply, 0) == [] <==>
      ReplyVote(challenges, reply(0)) == []
      && (Contains(reply(0), FalsePositive) || ReplyVote(challenges, reply(1)) == [])
    ensures ModelVotes(challenges, reply, 0) != [] ==>
      ModelVotes(challenges, reply, 0) == ReplyVote(challenges, reply(0))
      || (!Stops(challenges, reply(0)) && ModelVotes(challenges, reply, 0) == ReplyVote(challenges, reply(1)))
  {
    ModelStep(challenges, reply, 0, ReplyVote(challenges, reply(0)), Stops(challenges, reply(0)));
    ModelStep(challenges, reply, 1, ReplyVote(challenges, reply(1)), Stops(challenges, reply(1)));
  }

  /** The gate counts votes, not names: a context naming one of two
      challenges twice casts two votes for it, and with the model enabled
      those votes are thrown away and the model is asked. */
  lemma RepeatedNameOpensGate(ratio: (string, string) -> real)
    ensures ExactVotes("pwn pwn", ["pwn", "rev"]) == ["pwn", "pwn"]
    ensures NeedsModel(ExactVotes("pwn pwn", ["pwn", "rev"]) + FuzzyVote(ratio, "pwn pwn", ["pwn", "rev"]), true)
  {
    TwiceNamed();
    NeverNamed();
    assert ["pwn", "rev"][..1] == ["pwn"];
    assert ExactVotes("pwn pwn", ["pwn", "rev"]) == ExactVotes("pwn pwn", ["pwn"]) + Repeat("rev", 0);
  }

  /** "pwn" occurs twice in "pwn pwn". */
  lemma TwiceNamed()
    ensures ExactVotes("pwn pwn", ["pwn"]) == ["pwn", "pwn"]
  {
    var name := "pwn";
    var context := "pwn pwn";
    assert Lower(name) == name;
    assert Lower(context) == context;
    assert StartsWith(context, name);
    assert context[3..] == " pwn";
    assert !StartsWith(" pwn", name) by {
      assert " pwn"[0] != name[0];
    }
    assert " pwn"[1..] == name;
    assert StartsWith(name, name);
    assert name[3..] == "";
    assert Count(context, name) == 2;
    assert Key(context, name) == 2;
    assert ["pwn"][..0] == [];
    assert Repeat(name, 2) == ["pwn", "pwn"];
  }

  /** "rev" does not occur in "pwn pwn". */
  lemma NeverNamed()
    ensures Key("pwn pwn", "rev") == 0
  {
    var context := "pwn pwn";
    var other := "rev";
    assert Lower(other) == other;
    assert Lower(context) == context;
    assert other[0] !in context;
    NoFirstNoContains(context, other);
    CountPositiveIffContains(context, other);
  }
}
