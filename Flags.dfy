/** The `Flag` record every sniffer produces and `consolidate_flags`, which
    merges the records that share a flag value (flagger/sniffers/__init__.py). */
module Flags {
  import opened Base
  import opened Text

  /** A candidate flag, the place it was seen (a URL) and the text around it. */
  datatype Flag = Flag(flag: string, origin: string, context: string)

  /** What one call of a sniffer's `sniff` gives the dispatcher: the list it
      returned, or the exception it raised. */
  datatype SniffOutcome = Sniffed(flags: seq<Flag>) | Raised

  /** The records `f` gives for each element of `xs`, in order: what a
      loop appending `f(x)` for every `x` builds. */
  function Collect<T>(xs: seq<T>, f: T -> seq<Flag>): seq<Flag>
    decreases |xs|
  {
    if xs == [] then [] else Collect(xs[..|xs| - 1], f) + f(xs[|xs| - 1])
  }

  lemma CollectStep<T>(xs: seq<T>, f: T -> seq<Flag>, i: nat)
    requires i < |xs|
    ensures Collect(xs[..i + 1], f) == Collect(xs[..i], f) + f(xs[i])
  {
    assert xs[..i + 1][..i] == xs[..i];
  }

  lemma {:induction false} CollectAppend<T>(a: seq<T>, b: seq<T>, f: T -> seq<Flag>)
    ensures Collect(a + b, f) == Collect(a, f) + Collect(b, f)
    decreases |b|
  {
    if b == [] {
      assert a + b == a;
    } else {
      var front := b[..|b| - 1];
      assert (a + b)[..|a + b| - 1] == a + front;
      assert (a + b)[|a + b| - 1] == b[|b| - 1];
      CollectAppend(a, front, f);
    }
  }

  /** An element contributing nothing can be dropped. */
  lemma CollectSkip<T>(a: seq<T>, x: T, b: seq<T>, f: T -> seq<Flag>)
    requires f(x) == []
    ensures Collect(a + [x] + b, f) == Collect(a, f) + Collect(b, f)
  {
    CollectAppend(a + [x], b, f);
    CollectAppend(a, [x], f);
    assert [x][..0] == [];
    assert Collect([x], f) == Collect([x][..0], f) + f(x);
  }

  // ---------------------------------------------------------------------
  // The merge rule, stated per flag value

  function Values(fs: seq<Flag>): seq<string> {
    seq(|fs|, i requires 0 <= i < |fs| => fs[i].flag)
  }

  /** The distinct elements of `xs`, each where it first occurs. */
  function Dedup(xs: seq<string>): seq<string>
    decreases |xs|
  {
    if xs == [] then []
    else
      var d := Dedup(xs[..|xs| - 1]);
      if xs[|xs| - 1] in d then d else d + [xs[|xs| - 1]]
  }

  /** The origins of the records whose value is `k`, in input order. */
  function OriginsOf(fs: seq<Flag>, k: string): seq<string>
    decreases |fs|
  {
    if fs == [] then []
    else
      var prev := OriginsOf(fs[..|fs| - 1], k);
      if fs[|fs| - 1].flag == k then prev + [fs[|fs| - 1].origin] else prev
  }

  /** The contexts of the records whose value is `k`, in input order. */
  function ContextsOf(fs: seq<Flag>, k: string): seq<string>
    decreases |fs|
  {
    if fs == [] then []
    else
      var prev := ContextsOf(fs[..|fs| - 1], k);
      if fs[|fs| - 1].flag == k then prev + [fs[|fs| - 1].context] else prev
  }

  /** The one record kept for value `k`: origins joined by ", ", contexts by " ". */
  function Merged(fs: seq<Flag>, k: string): Flag {
    Flag(k, Join(", ", OriginsOf(fs, k)), Join(" ", ContextsOf(fs, k)))
  }

  /** Reference definition of the consolidated list: one merged record per
      distinct value, in first-seen order. */
  function Consolidate(fs: seq<Flag>): seq<Flag> {
    var ks := Dedup(Values(fs));
    seq(|ks|, i requires 0 <= i < |ks| => Merged(fs, ks[i]))
  }

  // ---------------------------------------------------------------------
  // consolidate_flags as the source runs it

  /** `consolidate_flags`: one pass over the records with a dictionary keyed
      by value; `order` is the dictionary's insertion order, which
      `list(consolidated.values())` follows. */
  method ConsolidateFlags(flags: seq<Flag>) returns (result: seq<Flag>)
    ensures result == Consolidate(flags)
  {
    var consolidated: map<string, Flag> := map[];
    var order: seq<string> := [];
    for i := 0 to |flags|
      invariant order == Dedup(Values(flags[..i]))
      invariant forall k :: k in consolidated <==> k in order
      invariant forall k :: k in consolidated ==> consolidated[k] == Merged(flags[..i], k)
    {
      var flag := flags[i];
      assert flags[..i + 1] == flags[..i] + [flag];
      assert Values(flags[..i + 1]) == Values(flags[..i]) + [flag.flag];
      DedupMembers(Values(flags[..i]));
      forall k | k in consolidated && k != flag.flag
        ensures Merged(flags[..i + 1], k) == Merged(flags[..i], k)
      {
        MergedSnoc(flags[..i], flag, k);
      }
      MergedSnoc(flags[..i], flag, flag.flag);
      if flag.flag in consolidated {
        var entry := consolidated[flag.flag];
        consolidated := consolidated[flag.flag := entry.(origin := entry.origin + ", " + flag.origin,
                                                         context := entry.context + " " + flag.context)];
      } else {
        consolidated := consolidated[flag.flag := Flag(flag.flag, flag.origin, flag.context)];
        order := order + [flag.flag];
      }
    }
    assert flags[..|flags|] == flags;
    result := seq(|order|, j requires 0 <= j < |order| => consolidated[order[j]]);
  }

  // ---------------------------------------------------------------------
  // Helper facts

  lemma ValuesSnoc(fs: seq<Flag>, f: Flag)
    ensures Values(fs + [f]) == Values(fs) + [f.flag]
  {
  }

  lemma {:induction false} OriginsAbsent(fs: seq<Flag>, k: string)
    requires k !in Values(fs)
    ensures OriginsOf(fs, k) == [] && ContextsOf(fs, k) == []
    decreases |fs|
  {
    if fs != [] {
      var p := fs[..|fs| - 1];
      assert Values(fs) == Values(p) + [fs[|fs| - 1].flag];
      OriginsAbsent(p, k);
    }
  }

  lemma {:induction false} OriginsPresent(fs: seq<Flag>, k: string)
    requires k in Values(fs)
    ensures OriginsOf(fs, k) != [] && ContextsOf(fs, k) != []
    decreases |fs|
  {
    var p := fs[..|fs| - 1];
    assert Values(fs) == Values(p) + [fs[|fs| - 1].flag];
    if fs[|fs| - 1].flag != k {
      OriginsPresent(p, k);
    }
  }

  /** How one more record changes the merged record of value `k`: the merge
      rule of sniffers/__init__.py:23-27. */
  lemma MergedSnoc(p: seq<Flag>, f: Flag, k: string)
    ensures k != f.flag ==> Merged(p + [f], k) == Merged(p, k)
    ensures k == f.flag && k !in Values(p) ==> Merged(p + [f], k) == f
    ensures k == f.flag && k in Values(p) ==>
      Merged(p + [f], k) == Merged(p, k).(origin := Merged(p, k).origin + ", " + f.origin,
                                          context := Merged(p, k).context + " " + f.context)
  {
    var all := p + [f];
    assert all[..|all| - 1] == p;
    if k == f.flag {
      if k in Values(p) {
        OriginsPresent(p, k);
        var os := OriginsOf(p, k);
        var cs := ContextsOf(p, k);
        assert (os + [f.origin])[..|os|] == os;
        assert (cs + [f.context])[..|cs|] == cs;
      } else {
        OriginsAbsent(p, k);
      }
    }
  }

  /** `Dedup` keeps exactly the values that occur. */
  lemma {:induction false} DedupMembers(xs: seq<string>)
    ensures forall x :: x in Dedup(xs) <==> x in xs
    decreases |xs|
  {
    if xs != [] {
      var p := xs[..|xs| - 1];
      DedupMembers(p);
      assert xs == p + [xs[|xs| - 1]];
    }
  }

  lemma {:induction false} DedupDistinct(xs: seq<string>)
    ensures Distinct(Dedup(xs))
    decreases |xs|
  {
    if xs != [] {
      DedupDistinct(xs[..|xs| - 1]);
    }
  }

  lemma {:induction false} DedupOfDistinct(xs: seq<string>)
    requires Distinct(xs)
    ensures Dedup(xs) == xs
    decreases |xs|
  {
    if xs != [] {
      var p := xs[..|xs| - 1];
      DedupOfDistinct(p);
      assert xs[|xs| - 1] !in p;
      assert p + [xs[|xs| - 1]] == xs;
    }
  }

  lemma {:induction false} DedupLength(xs: seq<string>)
    ensures |Dedup(xs)| <= |xs|
    ensures |Dedup(xs)| == |xs| <==> Distinct(xs)
    decreases |xs|
  {
    if xs != [] {
      var p := xs[..|xs| - 1];
      var x := xs[|xs| - 1];
      DedupLength(p);
      DedupMembers(p);
      if Distinct(xs) {
        DedupOfDistinct(xs);
      } else if x !in p {
        assert !Distinct(p) by {
          var i, j :| 0 <= i < j < |xs| && xs[i] == xs[j];
          assert xs[i] == p[i];
          assert j < |p|;
          assert p[i] == p[j];
        }
      }
    }
  }

  /** Position of the first occurrence of `x`. */
  function FirstIndex(xs: seq<string>, x: string): (r: nat)
    requires x in xs
    ensures r < |xs| && xs[r] == x && x !in xs[..r]
    decreases |xs|
  {
    if xs[0] == x then 0
    else
      var r := FirstIndex(xs[1..], x);
      assert xs[..r + 1] == [xs[0]] + xs[1..][..r];
      r + 1
  }

  lemma {:induction false} FirstIndexSnoc(p: seq<string>, x: string, y: string)
    requires y in p
    ensures FirstIndex(p + [x], y) == FirstIndex(p, y)
    decreases |p|
  {
    if p[0] != y {
      assert (p + [x])[1..] == p[1..] + [x];
      FirstIndexSnoc(p[1..], x, y);
    }
  }

  lemma FirstIndexNew(p: seq<string>, x: string)
    requires x !in p
    ensures FirstIndex(p + [x], x) == |p|
  {
    assert forall k :: 0 <= k < |p| ==> (p + [x])[k] == p[k];
  }

  /** `Dedup` lists the values in the order of their first occurrences. */
  lemma {:induction false} DedupFirstSeenOrder(xs: seq<string>)
    ensures forall x :: x in Dedup(xs) ==> x in xs
    ensures forall i, j :: 0 <= i < j < |Dedup(xs)| ==>
      FirstIndex(xs, Dedup(xs)[i]) < FirstIndex(xs, Dedup(xs)[j])
    decreases |xs|
  {
    DedupMembers(xs);
    if xs != [] {
      var p := xs[..|xs| - 1];
      var x := xs[|xs| - 1];
      assert xs == p + [x];
      DedupFirstSeenOrder(p);
      DedupMembers(p);
      var d := Dedup(p);
      forall i | 0 <= i < |d| ensures FirstIndex(xs, d[i]) == FirstIndex(p, d[i]) {
        FirstIndexSnoc(p, x, d[i]);
      }
      if x !in p {
        FirstIndexNew(p, x);
        assert Dedup(xs) == d + [x];
      } else {
        assert Dedup(xs) == d;
      }
    }
  }

  // ---------------------------------------------------------------------
  // Properties of the consolidated list

  /** The consolidated values are the distinct input values, each once, in
      first-seen order (sniffers/__init__.py:21-28). */
  lemma ConsolidateValues(fs: seq<Flag>)
    ensures Values(Consolidate(fs)) == Dedup(Values(fs))
    ensures Distinct(Values(Consolidate(fs)))
    ensures forall v :: v in Values(Consolidate(fs)) <==> v in Values(fs)
    ensures forall i, j :: 0 <= i < j < |Consolidate(fs)| ==>
      FirstIndex(Values(fs), Consolidate(fs)[i].flag) < FirstIndex(Values(fs), Consolidate(fs)[j].flag)
  {
    DedupDistinct(Values(fs));
    DedupMembers(Values(fs));
    DedupFirstSeenOrder(Values(fs));
    assert Values(Consolidate(fs)) == Dedup(Values(fs));
  }

  /** No two consolidated records share a flag value. */
  lemma NoDuplicateValues(fs: seq<Flag>)
    ensures forall i, j :: 0 <= i < j < |Consolidate(fs)| ==> Consolidate(fs)[i].flag != Consolidate(fs)[j].flag
  {
    ConsolidateValues(fs);
    var out := Consolidate(fs);
    forall i, j | 0 <= i < j < |out| ensures out[i].flag != out[j].flag {
      assert Values(out)[i] == out[i].flag && Values(out)[j] == out[j].flag;
    }
  }

  /** Each occurrence of a value is kept in its merged record: the record
      joins one origin and one context per input record with that value
      (sniffers/__init__.py:24-25). */
  lemma {:induction false} NothingDropped(fs: seq<Flag>, k: string)
    ensures |OriginsOf(fs, k)| == multiset(Values(fs))[k]
    ensures |ContextsOf(fs, k)| == multiset(Values(fs))[k]
    decreases |fs|
  {
    if fs != [] {
      var p := fs[..|fs| - 1];
      assert fs == p + [fs[|fs| - 1]];
      ValuesSnoc(p, fs[|fs| - 1]);
      NothingDropped(p, k);
    }
  }

  /** Each consolidated record is the merge of all input records with its
      value: the first origin followed by ", " and each later one, and the
      contexts joined by single spaces, all in input order. */
  lemma ConsolidateMerges(fs: seq<Flag>)
    ensures forall i :: 0 <= i < |Consolidate(fs)| ==>
      var r := Consolidate(fs)[i];
      && r.origin == Join(", ", OriginsOf(fs, r.flag))
      && r.context == Join(" ", ContextsOf(fs, r.flag))
      && |OriginsOf(fs, r.flag)| == multiset(Values(fs))[r.flag] > 0
  {
    ConsolidateValues(fs);
    forall i | 0 <= i < |Consolidate(fs)|
      ensures |OriginsOf(fs, Consolidate(fs)[i].flag)| == multiset(Values(fs))[Consolidate(fs)[i].flag] > 0
    {
      var k := Consolidate(fs)[i].flag;
      assert k in Values(Consolidate(fs));
      NothingDropped(fs, k);
    }
  }

  /** The list shrinks exactly when some value repeats; `[]` stays `[]`. */
  lemma ConsolidateLength(fs: seq<Flag>)
    ensures |Consolidate(fs)| <= |fs|
    ensures |Consolidate(fs)| == |fs| <==> Distinct(Values(fs))
    ensures fs == [] ==> Consolidate(fs) == []
  {
    DedupLength(Values(fs));
  }

  lemma {:induction false} OriginsOfDistinct(fs: seq<Flag>, i: nat)
    requires Distinct(Values(fs)) && i < |fs|
    ensures OriginsOf(fs, fs[i].flag) == [fs[i].origin]
    ensures ContextsOf(fs, fs[i].flag) == [fs[i].context]
    decreases |fs|
  {
    var p := fs[..|fs| - 1];
    var f := fs[|fs| - 1];
    assert fs == p + [f];
    ValuesSnoc(p, f);
    assert Values(p) == Values(fs)[..|p|];
    if i == |p| {
      forall j | 0 <= j < |p| ensures Values(p)[j] != f.flag {
        assert Values(fs)[j] != Values(fs)[|p|];
      }
      OriginsAbsent(p, f.flag);
    } else {
      assert Values(fs)[i] != Values(fs)[|p|];
      assert p[i] == fs[i];
      OriginsOfDistinct(p, i);
    }
  }

  /** A list whose values are already distinct is left as it is. */
  lemma ConsolidateDistinct(fs: seq<Flag>)
    requires Distinct(Values(fs))
    ensures Consolidate(fs) == fs
  {
    DedupOfDistinct(Values(fs));
    forall i | 0 <= i < |fs| ensures Consolidate(fs)[i] == fs[i] {
      OriginsOfDistinct(fs, i);
    }
  }

  /** Consolidating a consolidated list changes nothing. */
  lemma ConsolidateIdempotent(fs: seq<Flag>)
    ensures Consolidate(Consolidate(fs)) == Consolidate(fs)
  {
    ConsolidateValues(fs);
    ConsolidateDistinct(Consolidate(fs));
  }
}
