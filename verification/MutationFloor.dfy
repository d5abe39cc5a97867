/** What the greedy matching of `Mutants.Judged` comes to: per name the lesser of what was missed and
    what is named, so that a run passes exactly when two bags of names compare. */
module MutationFloor {
  import opened Text
  import opened Mutants

  // ----- bags of names -----

  /** Keys as a bag. A missed mutant whose name reads as none is in it as `None`, which no entry is. */
  type Bag = multiset<Option<Key>>

  ghost function NamedBag(entries: seq<Equivalent>): Bag {
    if entries == [] then multiset{}
    else NamedBag(entries[..|entries| - 1]) + multiset{Some(entries[|entries| - 1].Key())}
  }

  lemma {:induction false} NamedBagSize(entries: seq<Equivalent>)
    ensures |NamedBag(entries)| == |entries| && NamedBag(entries)[None] == 0
  {
    if entries != [] {
      NamedBagSize(entries[..|entries| - 1]);
    }
  }

  lemma {:induction false} NamedBagConcat(a: seq<Equivalent>, b: seq<Equivalent>)
    ensures NamedBag(a + b) == NamedBag(a) + NamedBag(b)
  {
    if b == [] {
      assert a + b == a;
    } else {
      assert (a + b)[..|a + b| - 1] == a + b[..|b| - 1];
      NamedBagConcat(a, b[..|b| - 1]);
    }
  }

  lemma NamedBagSnoc(a: seq<Equivalent>, e: Equivalent)
    ensures NamedBag(a + [e]) == NamedBag(a) + multiset{Some(e.Key())}
  {
    assert (a + [e])[..|a|] == a;
  }

  /** What a run's outcomes hold of one package, or of several. */
  datatype Stats = Stats(caught: nat, unjudged: nat, missed: Bag) {
    ghost function Plus(other: Stats): Stats {
      Stats(caught + other.caught, unjudged + other.unjudged, missed + other.missed)
    }

    ghost predicate Within(other: Stats) {
      caught <= other.caught && unjudged <= other.unjudged && missed <= other.missed
    }

    /** Every mutant but the unviable. */
    ghost function Viable(): nat { caught + unjudged + |missed| }
  }

  ghost const NOTHING := Stats(0, 0, multiset{})

  /** Caught, missed and unviable mutants are judged; anything else is a mutant without a verdict. */
  ghost function OneStats(outcome: Outcome, package: string): Stats {
    if outcome.scenario.Baseline? || outcome.scenario.mutant.package != package then NOTHING
    else if outcome.summary == "CaughtMutant" then Stats(1, 0, multiset{})
    else if outcome.summary == "MissedMutant" then Stats(0, 0, multiset{outcome.scenario.mutant.Key()})
    else if outcome.summary == "Unviable" then NOTHING
    else Stats(0, 1, multiset{})
  }

  ghost function StatsOf(outcomes: seq<Outcome>, package: string): Stats {
    if outcomes == [] then NOTHING
    else StatsOf(outcomes[..|outcomes| - 1], package).Plus(OneStats(outcomes[|outcomes| - 1], package))
  }

  ghost function FloorStats(outcomes: seq<Outcome>, crates: seq<FloorCrate>): Stats {
    if crates == [] then NOTHING
    else FloorStats(outcomes, crates[..|crates| - 1]).Plus(StatsOf(outcomes, crates[|crates| - 1].package))
  }

  // ----- the flags -----

  ghost function Used(named: seq<Equivalent>, used: seq<bool>): Bag
    requires |named| == |used|
  {
    NamedBag(Flagged(named, used, true))
  }

  lemma PlusRotates(a: Bag, x: Bag, b: Bag)
    ensures (a + x) + b == (a + b) + x && a + (b + x) == (a + b) + x
  {}

  lemma {:induction false} FlagsPartition(named: seq<Equivalent>, used: seq<bool>)
    requires |named| == |used|
    ensures Used(named, used) + NamedBag(Flagged(named, used, false)) == NamedBag(named)
  {
    if named != [] {
      var last := |named| - 1;
      var on, off := Flagged(named[..last], used[..last], true), Flagged(named[..last], used[..last], false);
      FlagsPartition(named[..last], used[..last]);
      if used[last] {
        NamedBagSnoc(on, named[last]);
        PlusRotates(NamedBag(on), multiset{Some(named[last].Key())}, NamedBag(off));
        assert Flagged(named, used, false) == off;
      } else {
        NamedBagSnoc(off, named[last]);
        PlusRotates(NamedBag(on), multiset{Some(named[last].Key())}, NamedBag(off));
        assert Flagged(named, used, true) == on;
      }
    }
  }

  lemma {:induction false} FlagRaised(named: seq<Equivalent>, used: seq<bool>, i: nat)
    requires |named| == |used| && i < |used| && !used[i]
    ensures Used(named, used[i := true]) == Used(named, used) + multiset{Some(named[i].Key())}
  {
    hide NamedBag;
    var last := |named| - 1;
    var raised := used[i := true];
    if i == last {
      assert raised[..last] == used[..last];
      NamedBagSnoc(Flagged(named[..last], used[..last], true), named[last]);
      assert Flagged(named, used, true) == Flagged(named[..last], used[..last], true);
    } else {
      assert raised[..last] == used[..last][i := true];
      FlagRaised(named[..last], used[..last], i);
      var more := if used[last] then [named[last]] else [];
      NamedBagConcat(Flagged(named[..last], used[..last], true), more);
      NamedBagConcat(Flagged(named[..last], raised[..last], true), more);
    }
  }

  /** With every entry of one key used, as many are used as there are. */
  lemma {:induction false} AllUsed(named: seq<Equivalent>, used: seq<bool>, key: Key)
    requires |named| == |used|
    requires forall i | 0 <= i < |named| :: used[i] || named[i].Key() != key
    ensures Used(named, used)[Some(key)] == NamedBag(named)[Some(key)]
  {
    if named != [] {
      var last := |named| - 1;
      AllUsed(named[..last], used[..last], key);
      if used[last] {
        NamedBagSnoc(Flagged(named[..last], used[..last], true), named[last]);
      } else {
        assert Flagged(named, used, true) == Flagged(named[..last], used[..last], true);
      }
    }
  }

  lemma {:induction false} NoneUsed(named: seq<Equivalent>)
    ensures Used(named, seq(|named|, _ => false)) == multiset{}
  {
    if named != [] {
      var last := |named| - 1;
      assert seq(|named|, _ => false)[..last] == seq(last, _ => false);
      NoneUsed(named[..last]);
    }
  }

  // ----- one outcome, one crate, every crate -----

  lemma NamedByKey(m: Mutant, entry: Equivalent)
    ensures m.IsNamedBy(entry) <==> m.Key() == Some(entry.Key())
  {}

  /** What holds of a crate's books opened over flags `before`, once `seen` of the crate was entered
      and `all` was missed in it and the crates ahead of it. */
  ghost predicate Balanced(named: seq<Equivalent>, before: Bag, all: Bag, books: Books, seen: Stats) {
    && |books.used| == |named|
    && Used(named, books.used) == all * NamedBag(named)
    && before + NamedBag(books.tally.excused) == Used(named, books.used)
    && books.tally.caught == seen.caught
    && |books.tally.excused| + |books.tally.escaped| == seen.unjudged + |seen.missed|
    && books.tally.viable == seen.Viable()
  }

  lemma MeetOneMore(a: Bag, b: Bag, key: Option<Key>)
    ensures (a + multiset{key}) * b == if a[key] < b[key] then a * b + multiset{key} else a * b
  {}

  /** A missed mutant is excused exactly when its key is named oftener than it was missed before. */
  lemma GreedyStep(named: seq<Equivalent>, used: seq<bool>, earlier: Bag, m: Mutant)
    requires |named| == |used|
    requires Used(named, used) == earlier * NamedBag(named)
    ensures match FirstFree(named, used, m)
            case Some(i) => Used(named, used[i := true]) == (earlier + multiset{m.Key()}) * NamedBag(named)
                            && Used(named, used[i := true]) == Used(named, used) + multiset{Some(named[i].Key())}
            case None => Used(named, used) == (earlier + multiset{m.Key()}) * NamedBag(named)
  {
    var key := m.Key();
    MeetOneMore(earlier, NamedBag(named), key);
    match FirstFree(named, used, m)
    case Some(i) =>
      NamedByKey(m, named[i]);
      FlagRaised(named, used, i);
      FlagsPartition(named, used[i := true]);
      assert Used(named, used)[key] + 1 <= NamedBag(named)[key];
    case None =>
      forall i | 0 <= i < |named| ensures used[i] || Some(named[i].Key()) != key {
        assert !IsFree(named, used, m, i);
        NamedByKey(m, named[i]);
      }
      NamedBagSize(named);
      if key.Some? {
        AllUsed(named, used, key.value);
      }
  }

  lemma PlusAssoc(a: Bag, b: Bag, c: Bag)
    ensures (a + b) + c == a + (b + c)
  {}

  lemma MissedBalances(named: seq<Equivalent>, before: Bag, all: Bag, books: Books, seen: Stats, m: Mutant, books': Books)
    requires Balanced(named, before, all, books, seen)
    requires books' == match FirstFree(named, books.used, m)
                       case Some(i) => Books(books.used[i := true], books.tally.(
                         viable := books.tally.viable + 1, excused := books.tally.excused + [named[i]]))
                       case None => books.(tally := books.tally.(
                         viable := books.tally.viable + 1, escaped := books.tally.escaped + [m.name + " (missed)"]))
    ensures Balanced(named, before, all + multiset{m.Key()}, books', seen.Plus(Stats(0, 0, multiset{m.Key()})))
  {
    hide FirstFree, NamedBag, Used;
    GreedyStep(named, books.used, all, m);
    match FirstFree(named, books.used, m)
    case Some(i) =>
      NamedBagSnoc(books.tally.excused, named[i]);
      PlusAssoc(before, NamedBag(books.tally.excused), multiset{Some(named[i].Key())});
    case None =>
  }

  lemma PlusNothing(a: Bag)
    ensures a + multiset{} == a
  {}

  /** An outcome that misses nothing leaves the flags as they are. */
  lemma UnmissedBalances(
      named: seq<Equivalent>, before: Bag, all: Bag, books: Books, seen: Stats, books': Books, one: Stats)
    requires Balanced(named, before, all, books, seen)
    requires books'.used == books.used && books'.tally.excused == books.tally.excused
    requires books'.tally.caught == books.tally.caught + one.caught
    requires |books'.tally.escaped| == |books.tally.escaped| + one.unjudged
    requires books'.tally.viable == books.tally.viable + one.caught + one.unjudged
    requires one.missed == multiset{}
    ensures Balanced(named, before, all, books', seen.Plus(one))
  {
    PlusNothing(seen.missed);
  }

  /** The readings told apart by the summaries themselves. */
  lemma ReadingIs(summary: string)
    ensures Reading(summary).Caught? <==> summary == "CaughtMutant"
    ensures Reading(summary).Missed? <==> summary == "MissedMutant"
    ensures Reading(summary).Unviable? <==> summary == "Unviable"
    ensures Reading(summary).TimedOut? <==> summary == "Timeout"
    ensures Reading(summary).Other? ==> Reading(summary).summary == summary
  {
    assert "CaughtMutant"[0] == 'C' && "MissedMutant"[0] == 'M' && "Unviable"[0] == 'U' && "Timeout"[0] == 'T';
  }

  lemma MissEnters(named: seq<Equivalent>, books: Books, outcome: Outcome)
    requires |books.used| == |named| && outcome.summary == "MissedMutant"
    requires outcome.scenario.Mutated? && outcome.scenario.mutant.package == books.tally.package
    ensures var m, t := outcome.scenario.mutant, books.tally;
            Entered(named, books, outcome) ==
              match FirstFree(named, books.used, m)
              case Some(i) =>
                Books(books.used[i := true], t.(viable := t.viable + 1, excused := t.excused + [named[i]]))
              case None => books.(tally := t.(viable := t.viable + 1, escaped := t.escaped + [m.name + " (missed)"]))
  {
    hide FirstFree, Reading;
    ReadingIs(outcome.summary);
  }

  lemma MissedIsEntered(named: seq<Equivalent>, before: Bag, all: Bag, books: Books, seen: Stats, outcome: Outcome)
    requires |books.used| == |named| && Balanced(named, before, all, books, seen)
    requires OneStats(outcome, books.tally.package).missed != multiset{}
    ensures var one := OneStats(outcome, books.tally.package);
            Balanced(named, before, all + one.missed, Entered(named, books, outcome), seen.Plus(one))
  {
    hide Balanced, FirstFree, Entered, Reading;
    MissEnters(named, books, outcome);
    MissedBalances(named, before, all, books, seen, outcome.scenario.mutant, Entered(named, books, outcome));
  }

  lemma OtherIsEntered(named: seq<Equivalent>, before: Bag, all: Bag, books: Books, seen: Stats, outcome: Outcome)
    requires |books.used| == |named| && Balanced(named, before, all, books, seen)
    requires OneStats(outcome, books.tally.package).missed == multiset{}
    ensures var one := OneStats(outcome, books.tally.package);
            Balanced(named, before, all + one.missed, Entered(named, books, outcome), seen.Plus(one))
  {
    hide Balanced, FirstFree, Reading;
    ReadingIs(outcome.summary);
    PlusNothing(all);
    UnmissedBalances(named, before, all, books, seen, Entered(named, books, outcome),
                     OneStats(outcome, books.tally.package));
  }

  lemma EnteredBalances(named: seq<Equivalent>, before: Bag, all: Bag, books: Books, seen: Stats, outcome: Outcome)
    requires Balanced(named, before, all, books, seen)
    ensures var one := OneStats(outcome, books.tally.package);
            Balanced(named, before, all + one.missed, Entered(named, books, outcome), seen.Plus(one))
  {
    if OneStats(outcome, books.tally.package).missed == multiset{} {
      OtherIsEntered(named, before, all, books, seen, outcome);
    } else {
      MissedIsEntered(named, before, all, books, seen, outcome);
    }
  }

  lemma EnteredKeepsPackage(named: seq<Equivalent>, books: Books, outcome: Outcome)
    requires |books.used| == |named|
    ensures Entered(named, books, outcome).tally.package == books.tally.package
    ensures Entered(named, books, outcome).tally.holdsCode == books.tally.holdsCode
  {}

  lemma {:induction false} OutcomesBalance(
      named: seq<Equivalent>, earlier: Bag, start: Books, outcomes: seq<Outcome>)
    requires |start.used| == |named| && Used(named, start.used) == earlier * NamedBag(named)
    requires start.tally.caught == start.tally.viable == 0 && start.tally.excused == [] && start.tally.escaped == []
    ensures var books := AfterOutcomes(named, outcomes, start);
            var stats := StatsOf(outcomes, start.tally.package);
            && Balanced(named, Used(named, start.used), earlier + stats.missed, books, stats)
            && books.tally.package == start.tally.package
  {
    if outcomes == [] {
      assert earlier + multiset{} == earlier;
    } else {
      var last := |outcomes| - 1;
      OutcomesBalance(named, earlier, start, outcomes[..last]);
      var seen := StatsOf(outcomes[..last], start.tally.package);
      EnteredKeepsPackage(named, AfterOutcomes(named, outcomes[..last], start), outcomes[last]);
      EnteredBalances(named, Used(named, start.used), earlier + seen.missed,
                      AfterOutcomes(named, outcomes[..last], start), seen, outcomes[last]);
      PlusAssoc(earlier, seen.missed, OneStats(outcomes[last], start.tally.package).missed);
    }
  }

  lemma {:induction false} HoldsCodeKept(named: seq<Equivalent>, start: Books, outcomes: seq<Outcome>)
    requires |start.used| == |named|
    ensures AfterOutcomes(named, outcomes, start).tally.holdsCode == start.tally.holdsCode
  {
    if outcomes != [] {
      var last := |outcomes| - 1;
      HoldsCodeKept(named, start, outcomes[..last]);
      EnteredKeepsPackage(named, AfterOutcomes(named, outcomes[..last], start), outcomes[last]);
    }
  }

  /** The excused and the escaped of a report, over every crate. */
  ghost function AllExcused(tallies: seq<Tally>): seq<Equivalent> {
    if tallies == [] then [] else AllExcused(tallies[..|tallies| - 1]) + tallies[|tallies| - 1].excused
  }

  ghost function CountEscaped(tallies: seq<Tally>): nat {
    if tallies == [] then 0 else CountEscaped(tallies[..|tallies| - 1]) + |tallies[|tallies| - 1].escaped|
  }

  /** The matching is optimal: per key, what's excused is the lesser of what was missed and what is named;
      and nothing viable goes uncounted. */
  lemma {:induction false} MatchingIsOptimal(
      outcomes: seq<Outcome>, crates: seq<FloorCrate>, named: seq<Equivalent>, scope: Scope)
    ensures var tallies := Judged(outcomes, crates, named, scope).tallies;
            var stats := FloorStats(outcomes, crates);
            && |tallies| == |crates|
            && NamedBag(AllExcused(tallies)) == stats.missed * NamedBag(named)
            && NamedBag(AllExcused(tallies)) == Used(named, AfterCrates(outcomes, crates, named, scope).used)
            && |AllExcused(tallies)| + CountEscaped(tallies) == stats.unjudged + |stats.missed|
  {
    if crates == [] {
      NoneUsed(named);
    } else {
      var last := |crates| - 1;
      MatchingIsOptimal(outcomes, crates[..last], named, scope);
      var before := AfterCrates(outcomes, crates[..last], named, scope);
      var start := Books(before.used, Opened(crates[last], scope));
      OutcomesBalance(named, FloorStats(outcomes, crates[..last]).missed, start, outcomes);
      var books := AfterOutcomes(named, outcomes, start);
      var tallies := before.tallies + [books.tally];
      assert tallies[..last] == before.tallies;
      NamedBagConcat(AllExcused(before.tallies), books.tally.excused);
    }
  }

  lemma BagDifference(a: Bag, b: Bag, whole: Bag)
    requires a + b == whole
    ensures b == whole - a
  {}

  /** Crate by crate: what was caught, excused and escaped adds up to what is viable, and the excused
      are counted from bags alone. */
  ghost predicate Tallied(
      outcomes: seq<Outcome>, crates: seq<FloorCrate>, named: seq<Equivalent>, scope: Scope, c: nat, tally: Tally)
    requires c < |crates|
  {
    var stats := StatsOf(outcomes, crates[c].package);
    && tally.package == crates[c].package
    && tally.caught == stats.caught
    && tally.viable == stats.Viable()
    && tally.viable == tally.caught + |tally.excused| + |tally.escaped|
    && tally.holdsCode == (crates[c].holdsCode && scope == Full)
    && NamedBag(tally.excused) == ExcusedBag(outcomes, crates, NamedBag(named), c)
  }

  lemma LastTally(outcomes: seq<Outcome>, crates: seq<FloorCrate>, named: seq<Equivalent>, scope: Scope)
    requires crates != []
    ensures var last := |crates| - 1;
            Tallied(outcomes, crates, named, scope, last, Judged(outcomes, crates, named, scope).tallies[last])
  {
    var last := |crates| - 1;
    var stats := StatsOf(outcomes, crates[last].package);
    var earlier := FloorStats(outcomes, crates[..last]);
    var before := AfterCrates(outcomes, crates[..last], named, scope);
    MatchingIsOptimal(outcomes, crates[..last], named, scope);
    var start := Books(before.used, Opened(crates[last], scope));
    OutcomesBalance(named, earlier.missed, start, outcomes);
    HoldsCodeKept(named, start, outcomes);
    assert crates[..last + 1] == crates;
    var books := AfterOutcomes(named, outcomes, start);
    assert FloorStats(outcomes, crates).missed == earlier.missed + stats.missed;
    assert Judged(outcomes, crates, named, scope).tallies[last] == books.tally;
    assert NamedBag(books.tally.excused) == ExcusedBag(outcomes, crates, NamedBag(named), last) by {
      BagDifference(Used(named, before.used), NamedBag(books.tally.excused), Used(named, books.used));
    }
  }

  lemma {:induction false} EachTally(
      outcomes: seq<Outcome>, crates: seq<FloorCrate>, named: seq<Equivalent>, scope: Scope, c: nat)
    requires c < |crates|
    ensures Tallied(outcomes, crates, named, scope, c, Judged(outcomes, crates, named, scope).tallies[c])
  {
    hide AfterOutcomes, StatsOf, NamedBag, FloorStats, Opened;
    var last := |crates| - 1;
    if c == last {
      LastTally(outcomes, crates, named, scope);
    } else {
      EachTally(outcomes, crates[..last], named, scope, c);
      assert crates[..last][..c + 1] == crates[..c + 1] && crates[..last][..c] == crates[..c];
      assert Judged(outcomes, crates, named, scope).tallies[c] == Judged(outcomes, crates[..last], named, scope).tallies[c];
    }
  }

  // ----- the verdict -----

  /** A run passes when no crate is below its floor or unmeasured, and no entry is stale. */
  ghost predicate Passes(verdict: Verdict) {
    verdict.stale == [] && forall t | t in verdict.tallies :: !t.Fails()
  }

  /** A crate that holds code has a viable mutant. */
  ghost predicate Measured(outcomes: seq<Outcome>, crates: seq<FloorCrate>) {
    forall krate | krate in crates && krate.holdsCode :: StatsOf(outcomes, krate.package).Viable() > 0
  }

  lemma {:induction false} NoneEscaped(tallies: seq<Tally>)
    ensures CountEscaped(tallies) == 0 <==> forall t | t in tallies :: t.escaped == []
  {
    if tallies != [] {
      var last := |tallies| - 1;
      NoneEscaped(tallies[..last]);
      assert forall t :: t in tallies <==> t in tallies[..last] || t == tallies[last];
    }
  }

  lemma MeetIsWhole(a: Bag, b: Bag)
    ensures |a * b| <= |a|
    ensures |a * b| == |a| <==> a <= b
    ensures a * b == b <==> b <= a
  {
    assert a == a * b + (a - b);
    if |a * b| == |a| {
      assert |a - b| == 0;
    }
    if a <= b {
      assert a * b == a;
    }
  }

  /** Nothing escapes exactly when every mutant got a verdict and what was missed is in the named bag. */
  lemma NothingEscapes(outcomes: seq<Outcome>, crates: seq<FloorCrate>, named: seq<Equivalent>, scope: Scope)
    ensures (forall t | t in Judged(outcomes, crates, named, scope).tallies :: t.escaped == [])
       <==> FloorStats(outcomes, crates).unjudged == 0 && FloorStats(outcomes, crates).missed <= NamedBag(named)
  {
    hide AfterCrates, FloorStats, NamedBag, AllExcused, CountEscaped;
    var tallies := Judged(outcomes, crates, named, scope).tallies;
    MatchingIsOptimal(outcomes, crates, named, scope);
    NoneEscaped(tallies);
    MeetIsWhole(FloorStats(outcomes, crates).missed, NamedBag(named));
    NamedBagSize(AllExcused(tallies));
  }

  lemma ACrateFails(outcomes: seq<Outcome>, crates: seq<FloorCrate>, named: seq<Equivalent>, scope: Scope, c: nat)
    requires c < |crates|
    ensures var tally := Judged(outcomes, crates, named, scope).tallies[c];
            tally.Fails() <==> (tally.escaped != []
              || (scope == Full && crates[c].holdsCode && StatsOf(outcomes, crates[c].package).Viable() == 0))
  {
    hide Judged, StatsOf, NamedBag, ExcusedBag;
    EachTally(outcomes, crates, named, scope, c);
  }

  /** No crate fails exactly when nothing escapes and, in a full run, each crate with code was measured. */
  lemma NoCrateFails(outcomes: seq<Outcome>, crates: seq<FloorCrate>, named: seq<Equivalent>, scope: Scope)
    ensures (forall t | t in Judged(outcomes, crates, named, scope).tallies :: !t.Fails())
       <==> && (forall t | t in Judged(outcomes, crates, named, scope).tallies :: t.escaped == [])
            && (scope == Full ==> Measured(outcomes, crates))
  {
    var tallies := Judged(outcomes, crates, named, scope).tallies;
    forall c: nat | c < |crates|
      ensures tallies[c].Fails()
         <==> tallies[c].escaped != []
              || (scope == Full && crates[c].holdsCode && StatsOf(outcomes, crates[c].package).Viable() == 0)
    {
      ACrateFails(outcomes, crates, named, scope, c);
    }
    MeasuredByIndex(outcomes, crates);
    assert (forall t | t in tallies :: !t.Fails()) <==> (forall c | 0 <= c < |crates| :: !tallies[c].Fails());
    assert (forall t | t in tallies :: t.escaped == []) <==> (forall c | 0 <= c < |crates| :: tallies[c].escaped == []);
  }

  lemma MeasuredByIndex(outcomes: seq<Outcome>, crates: seq<FloorCrate>)
    ensures Measured(outcomes, crates)
       <==> forall c | 0 <= c < |crates| :: crates[c].holdsCode ==> StatsOf(outcomes, crates[c].package).Viable() > 0
  {}

  /** No entry of a full run is stale exactly when every entry was missed as often as it's named; and
      what was excused and what is stale make up the list. */
  lemma NothingStale(outcomes: seq<Outcome>, crates: seq<FloorCrate>, named: seq<Equivalent>)
    ensures var verdict := Judged(outcomes, crates, named, Full);
            && NamedBag(AllExcused(verdict.tallies)) + NamedBag(verdict.stale) == NamedBag(named)
            && (verdict.stale == [] <==> NamedBag(named) <= FloorStats(outcomes, crates).missed)
  {
    var verdict := Judged(outcomes, crates, named, Full);
    var missed := FloorStats(outcomes, crates).missed;
    MatchingIsOptimal(outcomes, crates, named, Full);
    FlagsPartition(named, AfterCrates(outcomes, crates, named, Full).used);
    MeetIsWhole(missed, NamedBag(named));
    NamedBagSize(verdict.stale);
    if verdict.stale == [] {
      PlusNothing(missed * NamedBag(named));
    } else {
      assert |NamedBag(named)| == |missed * NamedBag(named)| + |verdict.stale|;
    }
  }

  /** The floor is exact: a full run passes exactly when the bag of what was missed in the floor crates is
      the bag of what is named, every mutant got a verdict, and every crate that holds code was measured. */
  lemma FullRunIsExact(outcomes: seq<Outcome>, crates: seq<FloorCrate>, named: seq<Equivalent>)
    ensures Passes(Judged(outcomes, crates, named, Full))
       <==> && FloorStats(outcomes, crates).missed == NamedBag(named)
            && FloorStats(outcomes, crates).unjudged == 0
            && Measured(outcomes, crates)
  {
    NothingEscapes(outcomes, crates, named, Full);
    NoCrateFails(outcomes, crates, named, Full);
    NothingStale(outcomes, crates, named);
  }

  /** A scoped run passes exactly when what was missed is in the named bag and every mutant got a verdict. */
  lemma ScopedRunIsInclusion(outcomes: seq<Outcome>, crates: seq<FloorCrate>, named: seq<Equivalent>)
    ensures Passes(Judged(outcomes, crates, named, Changed))
       <==> FloorStats(outcomes, crates).missed <= NamedBag(named) && FloorStats(outcomes, crates).unjudged == 0
  {
    NothingEscapes(outcomes, crates, named, Changed);
    NoCrateFails(outcomes, crates, named, Changed);
  }

  // ----- a floor's crates are distinct, so each mutant is counted once -----

  ghost predicate Distinct(crates: seq<FloorCrate>) {
    forall i, j | 0 <= i < j < |crates| :: crates[i].package != crates[j].package
  }

  ghost function Packages(crates: seq<FloorCrate>): set<string> {
    set krate | krate in crates :: krate.package
  }

  /** One outcome more, of a package in the first set, or of the package besides, or of neither. */
  lemma OneMore(a: Stats, b: Stats, one: Stats)
    ensures a.Plus(b).Plus(one) == a.Plus(one).Plus(b.Plus(NOTHING))
    ensures a.Plus(b).Plus(one) == a.Plus(b.Plus(one))
    ensures a.Plus(b) == a.Plus(b.Plus(NOTHING))
  {
    PlusRegroups(a, b, one);
    PlusRegroups(b, b, one);
  }

  lemma OneMoreCase(
      a: Stats, b: Stats, one: Stats, inA: bool, inB: bool, a': Stats, b': Stats, whole: Stats, whole': Stats)
    requires !(inA && inB) && whole == a.Plus(b)
    requires a' == if inA then a.Plus(one) else a
    requires b' == b.Plus(if inB then one else NOTHING)
    requires whole' == if inA || inB then whole.Plus(one) else whole
    ensures whole' == a'.Plus(b')
  {
    OneMore(a, b, one);
  }

  ghost predicate OfPackages(outcome: Outcome, packages: set<string>) {
    outcome.scenario.Mutated? && outcome.scenario.mutant.package in packages
  }

  ghost function OwnStats(outcome: Outcome): Stats {
    if outcome.scenario.Mutated? then OneStats(outcome, outcome.scenario.mutant.package) else NOTHING
  }

  ghost function StatsIn(outcomes: seq<Outcome>, packages: set<string>): Stats {
    if outcomes == [] then NOTHING
    else
      var before := StatsIn(outcomes[..|outcomes| - 1], packages);
      var last := outcomes[|outcomes| - 1];
      if OfPackages(last, packages) then before.Plus(OwnStats(last)) else before
  }

  lemma LastOfPackage(outcomes: seq<Outcome>, package: string)
    requires outcomes != []
    ensures var init, last := outcomes[..|outcomes| - 1], outcomes[|outcomes| - 1];
            StatsOf(outcomes, package) ==
            StatsOf(init, package).Plus(if OfPackages(last, {package}) then OwnStats(last) else NOTHING)
  {}

  lemma {:induction false} StatsInOneMore(outcomes: seq<Outcome>, packages: set<string>, package: string)
    requires package !in packages
    ensures StatsIn(outcomes, packages + {package}) == StatsIn(outcomes, packages).Plus(StatsOf(outcomes, package))
  {
    if outcomes == [] {
      PlusRegroups(NOTHING, NOTHING, NOTHING);
    } else {
      var init, last := outcomes[..|outcomes| - 1], outcomes[|outcomes| - 1];
      StatsInOneMore(init, packages, package);
      LastOfPackage(outcomes, package);
      OneMoreCase(
        StatsIn(init, packages), StatsOf(init, package), OwnStats(last),
        OfPackages(last, packages), OfPackages(last, {package}),
        StatsIn(outcomes, packages), StatsOf(outcomes, package),
        StatsIn(init, packages + {package}), StatsIn(outcomes, packages + {package}));
    }
  }

  lemma PlusSwaps(a: Stats, x: Stats, y: Stats)
    ensures a.Plus(x).Plus(y) == a.Plus(y).Plus(x)
  {
    assert (a.missed + x.missed) + y.missed == (a.missed + y.missed) + x.missed;
  }

  lemma PlusRegroups(a: Stats, b: Stats, x: Stats)
    ensures a.Plus(x).Plus(b) == a.Plus(b).Plus(x) && a.Plus(b.Plus(x)) == a.Plus(b).Plus(x)
    ensures a.Plus(NOTHING) == a
  {
    PlusSwaps(a, x, b);
    PlusAssoc(a.missed, b.missed, x.missed);
    PlusNothing(a.missed);
  }

  lemma {:induction false} StatsInNone(outcomes: seq<Outcome>)
    ensures StatsIn(outcomes, {}) == NOTHING
  {
    if outcomes != [] {
      StatsInNone(outcomes[..|outcomes| - 1]);
    }
  }

  /** With distinct packages, what the crates hold is what the outcomes of their packages hold, each once. */
  lemma {:induction false} DistinctCratesCountOnce(outcomes: seq<Outcome>, crates: seq<FloorCrate>)
    requires Distinct(crates)
    ensures FloorStats(outcomes, crates) == StatsIn(outcomes, Packages(crates))
  {
    if crates == [] {
      StatsInNone(outcomes);
      assert Packages(crates) == {};
    } else {
      var last := |crates| - 1;
      var before := crates[..last];
      DistinctCratesCountOnce(outcomes, before);
      OneMorePackage(crates);
      StatsInOneMore(outcomes, Packages(before), crates[last].package);
    }
  }

  lemma OneMorePackage(crates: seq<FloorCrate>)
    requires crates != [] && Distinct(crates)
    ensures var last := |crates| - 1;
            && Packages(crates) == Packages(crates[..last]) + {crates[last].package}
            && crates[last].package !in Packages(crates[..last])
  {
    var last := |crates| - 1;
    assert forall krate :: krate in crates <==> krate in crates[..last] || krate == crates[last];
  }

  // ----- order and inclusion -----

  lemma {:induction false} StatsConcat(a: seq<Outcome>, b: seq<Outcome>, package: string)
    ensures StatsOf(a + b, package) == StatsOf(a, package).Plus(StatsOf(b, package))
  {
    hide OneStats, Stats.Plus;
    var whole := StatsOf(a, package);
    PlusRegroups(whole, whole, whole);
    if b == [] {
      assert a + b == a;
    } else {
      var last := |b| - 1;
      assert (a + b)[..|a + b| - 1] == a + b[..last] && (a + b)[|a + b| - 1] == b[last];
      StatsConcat(a, b[..last], package);
      PlusRegroups(whole, StatsOf(b[..last], package), OneStats(b[last], package));
    }
  }

  lemma StatsSnoc(a: seq<Outcome>, x: Outcome, package: string)
    ensures StatsOf(a + [x], package) == StatsOf(a, package).Plus(OneStats(x, package))
  {
    assert (a + [x])[..|a|] == a;
  }

  lemma StatsWithout(outcomes: seq<Outcome>, package: string, i: nat)
    requires i < |outcomes|
    ensures StatsOf(outcomes, package)
         == StatsOf(outcomes[..i] + outcomes[i + 1..], package).Plus(OneStats(outcomes[i], package))
  {
    var before, x, after := outcomes[..i], outcomes[i], outcomes[i + 1..];
    assert outcomes == (before + [x]) + after;
    StatsConcat(before + [x], after, package);
    StatsSnoc(before, x, package);
    StatsConcat(before, after, package);
    PlusSwaps(StatsOf(before, package), OneStats(x, package), StatsOf(after, package));
  }

  lemma TakenOut<T>(s: seq<T>, i: nat)
    requires i < |s|
    ensures multiset(s) == multiset(s[..i] + s[i + 1..]) + multiset{s[i]}
  {
    assert s == s[..i] + [s[i]] + s[i + 1..];
  }

  /** The last of `some` is somewhere in `all`, and without it the rest is still within the rest. */
  lemma PairOff<T>(some: seq<T>, all: seq<T>) returns (i: nat)
    requires some != [] && multiset(some) <= multiset(all)
    ensures i < |all| && all[i] == some[|some| - 1]
    ensures multiset(some[..|some| - 1]) <= multiset(all[..i] + all[i + 1..])
  {
    var x := some[|some| - 1];
    assert some == some[..|some| - 1] + [x];
    assert x in multiset(some) && x in all;
    i :| i < |all| && all[i] == x;
    TakenOut(all, i);
    var rest, rest' := multiset(some[..|some| - 1]), multiset(all[..i] + all[i + 1..]);
    assert multiset(some) == rest + multiset{x} && multiset(all) == rest' + multiset{x};
    forall y ensures rest[y] <= rest'[y] {
      assert multiset(some)[y] <= multiset(all)[y];
    }
  }

  lemma {:induction false} StatsMonotone(some: seq<Outcome>, all: seq<Outcome>, package: string)
    requires multiset(some) <= multiset(all)
    ensures StatsOf(some, package).Within(StatsOf(all, package))
  {
    if some != [] {
      var i := PairOff(some, all);
      StatsMonotone(some[..|some| - 1], all[..i] + all[i + 1..], package);
      StatsWithout(all, package, i);
    }
  }

  lemma {:induction false} FloorStatsMonotone(some: seq<Outcome>, all: seq<Outcome>, crates: seq<FloorCrate>)
    requires multiset(some) <= multiset(all)
    ensures FloorStats(some, crates).Within(FloorStats(all, crates))
  {
    if crates != [] {
      var last := |crates| - 1;
      FloorStatsMonotone(some, all, crates[..last]);
      StatsMonotone(some, all, crates[last].package);
    }
  }

  /** Whatever part of a passing full run a scoped run tests, it passes too. */
  lemma PartOfAPassingRunPasses(part: seq<Outcome>, full: seq<Outcome>, crates: seq<FloorCrate>, named: seq<Equivalent>)
    requires multiset(part) <= multiset(full)
    requires Passes(Judged(full, crates, named, Full))
    ensures Passes(Judged(part, crates, named, Changed))
  {
    FullRunIsExact(full, crates, named);
    FloorStatsMonotone(part, full, crates);
    ScopedRunIsInclusion(part, crates, named);
  }

  lemma {:induction false} NamedBagMonotone(some: seq<Equivalent>, all: seq<Equivalent>)
    requires multiset(some) <= multiset(all)
    ensures NamedBag(some) <= NamedBag(all)
  {
    if some != [] {
      var i := PairOff(some, all);
      var x := all[i];
      NamedBagMonotone(some[..|some| - 1], all[..i] + all[i + 1..]);
      assert all == all[..i] + [x] + all[i + 1..];
      NamedBagConcat(all[..i] + [x], all[i + 1..]);
      NamedBagSnoc(all[..i], x);
      NamedBagConcat(all[..i], all[i + 1..]);
    }
  }

  /** The counts of a crate's line. */
  ghost function Counts(t: Tally): (nat, nat, nat, nat) {
    (t.caught, t.viable, |t.excused|, |t.escaped|)
  }

  /** Neither the order of the outcomes nor that of the entries changes a count or the verdict. */
  lemma OrderFree(
      outcomes: seq<Outcome>, outcomes': seq<Outcome>, crates: seq<FloorCrate>,
      named: seq<Equivalent>, named': seq<Equivalent>, scope: Scope)
    requires multiset(outcomes) == multiset(outcomes') && multiset(named) == multiset(named')
    ensures var v, v' := Judged(outcomes, crates, named, scope), Judged(outcomes', crates, named', scope);
            && |v.tallies| == |v'.tallies| == |crates|
            && (forall c | 0 <= c < |crates| :: Counts(v.tallies[c]) == Counts(v'.tallies[c]))
            && |v.stale| == |v'.stale|
            && (Passes(v) <==> Passes(v'))
  {
    NamedBagMonotone(named, named');
    NamedBagMonotone(named', named);
    var v, v' := Judged(outcomes, crates, named, scope), Judged(outcomes', crates, named', scope);
    forall c: nat | c < |crates| ensures Counts(v.tallies[c]) == Counts(v'.tallies[c]) {
      SameCounts(outcomes, outcomes', crates, named, named', scope, c);
    }
    SameStats(outcomes, outcomes', crates);
    StaleCount(outcomes, crates, named, scope);
    StaleCount(outcomes', crates, named', scope);
    FullRunIsExact(outcomes, crates, named);
    FullRunIsExact(outcomes', crates, named');
    ScopedRunIsInclusion(outcomes, crates, named);
    ScopedRunIsInclusion(outcomes', crates, named');
  }

  /** How many entries are stale is told from the two bags. */
  lemma StaleCount(outcomes: seq<Outcome>, crates: seq<FloorCrate>, named: seq<Equivalent>, scope: Scope)
    ensures |Judged(outcomes, crates, named, scope).stale| ==
              if scope == Full then |NamedBag(named)| - |FloorStats(outcomes, crates).missed * NamedBag(named)| else 0
  {
    var verdict := Judged(outcomes, crates, named, scope);
    if scope == Full {
      MatchingIsOptimal(outcomes, crates, named, Full);
      NothingStale(outcomes, crates, named);
      NamedBagSize(verdict.stale);
      hide FloorStats, NamedBag, Judged;
      assert |NamedBag(named)| == |NamedBag(AllExcused(verdict.tallies))| + |NamedBag(verdict.stale)|;
    }
  }

  lemma SameStats(outcomes: seq<Outcome>, outcomes': seq<Outcome>, crates: seq<FloorCrate>)
    requires multiset(outcomes) == multiset(outcomes')
    ensures FloorStats(outcomes, crates) == FloorStats(outcomes', crates)
    ensures Measured(outcomes, crates) <==> Measured(outcomes', crates)
  {
    FloorStatsMonotone(outcomes, outcomes', crates);
    FloorStatsMonotone(outcomes', outcomes, crates);
    forall package ensures StatsOf(outcomes, package) == StatsOf(outcomes', package) {
      StatsMonotone(outcomes, outcomes', package);
      StatsMonotone(outcomes', outcomes, package);
    }
  }

  lemma SameCounts(
      outcomes: seq<Outcome>, outcomes': seq<Outcome>, crates: seq<FloorCrate>,
      named: seq<Equivalent>, named': seq<Equivalent>, scope: Scope, c: nat)
    requires multiset(outcomes) == multiset(outcomes') && NamedBag(named) == NamedBag(named') && c < |crates|
    ensures Counts(Judged(outcomes, crates, named, scope).tallies[c])
         == Counts(Judged(outcomes', crates, named', scope).tallies[c])
  {
    StatsMonotone(outcomes, outcomes', crates[c].package);
    StatsMonotone(outcomes', outcomes, crates[c].package);
    var stats := StatsOf(outcomes, crates[c].package);
    assert StatsOf(outcomes', crates[c].package) == stats;
    SameStats(outcomes, outcomes', crates[..c + 1]);
    SameStats(outcomes, outcomes', crates[..c]);
    var excused := ExcusedBag(outcomes, crates, NamedBag(named), c);
    CountsOfTally(outcomes, crates, named, scope, c, stats, excused);
    CountsOfTally(outcomes', crates, named', scope, c, stats, excused);
  }

  ghost function ExcusedBag(outcomes: seq<Outcome>, crates: seq<FloorCrate>, named: Bag, c: nat): Bag
    requires c < |crates|
  {
    FloorStats(outcomes, crates[..c + 1]).missed * named - FloorStats(outcomes, crates[..c]).missed * named
  }

  lemma CountsOfTally(
      outcomes: seq<Outcome>, crates: seq<FloorCrate>, named: seq<Equivalent>, scope: Scope, c: nat,
      stats: Stats, excused: Bag)
    requires c < |crates|
    requires stats == StatsOf(outcomes, crates[c].package) && excused == ExcusedBag(outcomes, crates, NamedBag(named), c)
    ensures Counts(Judged(outcomes, crates, named, scope).tallies[c])
         == (stats.caught, stats.Viable(), |excused|, stats.Viable() - stats.caught - |excused|)
  {
    EachTally(outcomes, crates, named, scope, c);
    CountsFrom(Judged(outcomes, crates, named, scope).tallies[c], stats, excused);
  }

  lemma CountsFrom(t: Tally, stats: Stats, excused: Bag)
    requires NamedBag(t.excused) == excused
    requires t.caught == stats.caught && t.viable == stats.Viable() == t.caught + |t.excused| + |t.escaped|
    ensures Counts(t) == (stats.caught, stats.Viable(), |excused|, stats.Viable() - stats.caught - |excused|)
  {
    NamedBagSize(t.excused);
  }
}
