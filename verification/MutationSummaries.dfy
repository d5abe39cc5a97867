/** What each summary of an outcome does to the verdict, and which mutants a verdict tells of. */
module MutationSummaries {
  import opened Text
  import opened Mutants
  import opened MutationFloor

  /** An outcome of one of a package's mutants. */
  predicate IsOf(outcome: Outcome, package: string) {
    outcome.scenario.Mutated? && outcome.scenario.mutant.package == package
  }

  // ----- the counts of a line -----

  /** How many of a package's mutants are summarised so. */
  ghost function Summarised(outcomes: seq<Outcome>, package: string, summary: string): nat {
    if outcomes == [] then 0
    else
      var last := outcomes[|outcomes| - 1];
      Summarised(outcomes[..|outcomes| - 1], package, summary)
      + if IsOf(last, package) && last.summary == summary then 1 else 0
  }

  ghost function MutantsOf(outcomes: seq<Outcome>, package: string): nat {
    if outcomes == [] then 0
    else
      MutantsOf(outcomes[..|outcomes| - 1], package) + if IsOf(outcomes[|outcomes| - 1], package) then 1 else 0
  }

  lemma {:induction false} StatsAreSummaries(outcomes: seq<Outcome>, package: string)
    ensures var stats := StatsOf(outcomes, package);
            && stats.caught == Summarised(outcomes, package, "CaughtMutant")
            && |stats.missed| == Summarised(outcomes, package, "MissedMutant")
            && stats.Viable() + Summarised(outcomes, package, "Unviable") == MutantsOf(outcomes, package)
  {
    hide OneStats;
    if outcomes != [] {
      StatsAreSummaries(outcomes[..|outcomes| - 1], package);
      OneSummary(outcomes[|outcomes| - 1], package);
    }
  }

  lemma OneSummary(o: Outcome, package: string)
    ensures var one, mine := OneStats(o, package), IsOf(o, package);
            && one.caught == (if mine && o.summary == "CaughtMutant" then 1 else 0)
            && |one.missed| == (if mine && o.summary == "MissedMutant" then 1 else 0)
            && one.unjudged == (if mine && o.summary !in {"CaughtMutant", "MissedMutant", "Unviable"} then 1 else 0)
            && one.Viable() + (if mine && o.summary == "Unviable" then 1 else 0) == if mine then 1 else 0
  {
    assert "CaughtMutant"[0] == 'C' && "MissedMutant"[0] == 'M' && "Unviable"[0] == 'U';
  }

  /** A crate's line counts its mutants by their summaries: those caught are the `CaughtMutant`s, and viable
      are all but the `Unviable`. */
  lemma LinesCountSummaries(
      outcomes: seq<Outcome>, crates: seq<FloorCrate>, named: seq<Equivalent>, scope: Scope, c: nat)
    requires c < |crates|
    ensures var tally, package := Judged(outcomes, crates, named, scope).tallies[c], crates[c].package;
            && tally.caught == Summarised(outcomes, package, "CaughtMutant")
            && tally.viable + Summarised(outcomes, package, "Unviable") == MutantsOf(outcomes, package)
            && tally.viable == tally.caught + |tally.excused| + |tally.escaped|
  {
    hide Judged, StatsOf, Summarised, MutantsOf;
    EachTally(outcomes, crates, named, scope, c);
    StatsAreSummaries(outcomes, crates[c].package);
  }

  // ----- what fails a run -----

  lemma {:induction false} HeldIn(outcomes: seq<Outcome>, o: Outcome, package: string)
    requires o in outcomes
    ensures OneStats(o, package).Within(StatsOf(outcomes, package))
  {
    hide OneStats;
    var init, last := outcomes[..|outcomes| - 1], outcomes[|outcomes| - 1];
    if o != last {
      HeldIn(init, o, package);
    }
  }

  lemma {:induction false} HeldInAll(outcomes: seq<Outcome>, crates: seq<FloorCrate>, krate: FloorCrate)
    requires krate in crates
    ensures StatsOf(outcomes, krate.package).Within(FloorStats(outcomes, crates))
  {
    hide StatsOf;
    if krate != crates[|crates| - 1] {
      HeldInAll(outcomes, crates[..|crates| - 1], krate);
    }
  }

  lemma HeldInTheFloor(outcomes: seq<Outcome>, crates: seq<FloorCrate>, krate: FloorCrate, o: Outcome)
    requires krate in crates && o in outcomes
    ensures OneStats(o, krate.package).Within(FloorStats(outcomes, crates))
  {
    hide OneStats, StatsOf, FloorStats;
    HeldIn(outcomes, o, krate.package);
    HeldInAll(outcomes, crates, krate);
  }

  /** A mutant of a floor crate that timed out, or whose summary is any but the three that are verdicts, fails the
      run, whatever is named. */
  lemma NoVerdictFails(outcomes: seq<Outcome>, crates: seq<FloorCrate>, named: seq<Equivalent>, scope: Scope,
                       krate: FloorCrate, o: Outcome)
    requires krate in crates && o in outcomes && IsOf(o, krate.package)
    requires o.summary !in {"CaughtMutant", "MissedMutant", "Unviable"}
    ensures !Passes(Judged(outcomes, crates, named, scope))
  {
    hide Judged, OneStats, FloorStats, Passes;
    OneSummary(o, krate.package);
    HeldInTheFloor(outcomes, crates, krate, o);
    FullRunIsExact(outcomes, crates, named);
    ScopedRunIsInclusion(outcomes, crates, named);
  }

  /** So does a `MissedMutant` that no entry names. */
  lemma AnUnnamedMissFails(outcomes: seq<Outcome>, crates: seq<FloorCrate>, named: seq<Equivalent>, scope: Scope,
                           krate: FloorCrate, o: Outcome)
    requires krate in crates && o in outcomes && IsOf(o, krate.package) && o.summary == "MissedMutant"
    requires forall e | e in named :: !o.scenario.mutant.IsNamedBy(e)
    ensures !Passes(Judged(outcomes, crates, named, scope))
  {
    hide Judged, FloorStats, Passes;
    var key := o.scenario.mutant.Key();
    NotNamed(named, o.scenario.mutant);
    HeldInTheFloor(outcomes, crates, krate, o);
    assert OneStats(o, krate.package).missed[key] == 1;
    FullRunIsExact(outcomes, crates, named);
    ScopedRunIsInclusion(outcomes, crates, named);
  }

  lemma {:induction false} NotNamed(named: seq<Equivalent>, m: Mutant)
    requires forall e | e in named :: !m.IsNamedBy(e)
    ensures NamedBag(named)[m.Key()] == 0
  {
    if named != [] {
      NotNamed(named[..|named| - 1], m);
      NamedByKey(m, named[|named| - 1]);
    }
  }

  // ----- what changes nothing -----

  /** Neither an outcome of the baseline nor that of a mutant that didn't build changes the verdict at all. */
  lemma NotBuiltIsNotCounted(outcomes: seq<Outcome>, more: Outcome, crates: seq<FloorCrate>, named: seq<Equivalent>,
                             scope: Scope)
    requires more.scenario.Baseline? || more.summary == "Unviable"
    ensures Judged(outcomes + [more], crates, named, scope) == Judged(outcomes, crates, named, scope)
  {
    SameLedger(outcomes, more, crates, named, scope);
  }

  lemma {:induction false} SameLedger(
      outcomes: seq<Outcome>, more: Outcome, crates: seq<FloorCrate>, named: seq<Equivalent>, scope: Scope)
    requires more.scenario.Baseline? || more.summary == "Unviable"
    ensures AfterCrates(outcomes + [more], crates, named, scope) == AfterCrates(outcomes, crates, named, scope)
  {
    hide Entered;
    if crates != [] {
      var last := |crates| - 1;
      SameLedger(outcomes, more, crates[..last], named, scope);
      var start := Books(AfterCrates(outcomes, crates[..last], named, scope).used, Opened(crates[last], scope));
      assert (outcomes + [more])[..|outcomes|] == outcomes;
      EntersNothing(named, AfterOutcomes(named, outcomes, start), more);
    }
  }

  lemma EntersNothing(named: seq<Equivalent>, books: Books, more: Outcome)
    requires |books.used| == |named| && (more.scenario.Baseline? || more.summary == "Unviable")
    ensures Entered(named, books, more) == books
  {
    hide Reading;
    ReadingIs(more.summary);
  }

  // ----- what's told -----

  /** How an escaped mutant is told of. */
  function Told(o: Outcome): string
    requires o.scenario.Mutated?
  {
    o.scenario.mutant.name
    + if o.summary == "MissedMutant" then " (missed)"
      else if o.summary == "Timeout" then " (timed out)"
      else " (" + o.summary + ")"
  }

  /** The lines told of a crate's mutants. Those without a verdict are all told, of the missed some. */
  ghost predicate Tells(outcomes: seq<Outcome>, package: string, escaped: seq<string>) {
    && (forall text | text in escaped ::
          exists o | o in outcomes && IsOf(o, package) :: o.summary !in {"CaughtMutant", "Unviable"} && text == Told(o))
    && (forall o | o in outcomes && IsOf(o, package) && o.summary !in {"CaughtMutant", "MissedMutant", "Unviable"} ::
          Told(o) in escaped)
  }

  lemma EntersTelling(named: seq<Equivalent>, books: Books, outcomes: seq<Outcome>, o: Outcome)
    requires |books.used| == |named| && Tells(outcomes, books.tally.package, books.tally.escaped)
    ensures Tells(outcomes + [o], books.tally.package, Entered(named, books, o).tally.escaped)
  {
    hide Reading, Told, FirstFree;
    var escaped := Entered(named, books, o).tally.escaped;
    OneLine(named, books, o);
    forall text | text in escaped
      ensures exists p | p in outcomes + [o] && IsOf(p, books.tally.package) ::
                p.summary !in {"CaughtMutant", "Unviable"} && text == Told(p)
    {
      if text in books.tally.escaped {
        var p :| p in outcomes && IsOf(p, books.tally.package)
                 && p.summary !in {"CaughtMutant", "Unviable"} && text == Told(p);
        assert p in outcomes + [o];
      } else {
        assert o in outcomes + [o];
      }
    }
  }

  lemma OneLine(named: seq<Equivalent>, books: Books, o: Outcome)
    requires |books.used| == |named|
    ensures var before, after := books.tally.escaped, Entered(named, books, o).tally.escaped;
            && (after == before || (IsOf(o, books.tally.package) && o.summary !in {"CaughtMutant", "Unviable"}
                                    && after == before + [Told(o)]))
            && (IsOf(o, books.tally.package) && o.summary !in {"CaughtMutant", "MissedMutant", "Unviable"}
                ==> after == before + [Told(o)])
  {
    hide Reading, FirstFree;
    ReadingIs(o.summary);
    if o.scenario.Mutated? {
      var name := o.scenario.mutant.name;
      Assoc(name, " (" + o.summary, ")");
      Assoc(name, " (", o.summary);
    }
  }

  lemma {:induction false} OutcomesTell(named: seq<Equivalent>, start: Books, outcomes: seq<Outcome>)
    requires |start.used| == |named| && start.tally.escaped == []
    ensures var books := AfterOutcomes(named, outcomes, start);
            books.tally.package == start.tally.package
            && Tells(outcomes, start.tally.package, books.tally.escaped)
  {
    hide Entered, Tells;
    if outcomes == [] {
      NothingTold(start.tally.package);
    } else {
      var last := |outcomes| - 1;
      OutcomesTell(named, start, outcomes[..last]);
      EntersTelling(named, AfterOutcomes(named, outcomes[..last], start), outcomes[..last], outcomes[last]);
      EnteredKeepsPackage(named, AfterOutcomes(named, outcomes[..last], start), outcomes[last]);
      assert outcomes == outcomes[..last] + [outcomes[last]];
    }
  }

  lemma NothingTold(package: string)
    ensures Tells([], package, [])
  {}

  /** Each crate's escaped lines are of its own mutants that were missed or have no verdict, by name and
      summary, and every one without a verdict is told. */
  lemma {:induction false} EscapedAreTold(
      outcomes: seq<Outcome>, crates: seq<FloorCrate>, named: seq<Equivalent>, scope: Scope, c: nat)
    requires c < |crates|
    ensures Tells(outcomes, crates[c].package, Judged(outcomes, crates, named, scope).tallies[c].escaped)
  {
    hide AfterOutcomes, Tells, Flagged;
    var last := |crates| - 1;
    if c == last {
      var before := AfterCrates(outcomes, crates[..last], named, scope);
      OutcomesTell(named, Books(before.used, Opened(crates[last], scope)), outcomes);
    } else {
      EscapedAreTold(outcomes, crates[..last], named, scope, c);
    }
  }
}
