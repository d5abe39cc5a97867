/** The runs around the floor: the report a run reads is its own, and the verdict is what is concluded. */
module MutationRun {
  import opened Floors
  import opened Text
  import opened Mutants
  import opened MutationFloor

  /** A verdict as a step result: passed, with how many floors had nothing to measure, or failed, with
      how many fell short, every mutant that escaped and every stale entry. */
  datatype Conclusion =
    | Passed(unmeasured: Option<nat>, excused: seq<Equivalent>)
    | Failed(short: nat, escaped: seq<string>, stale: seq<Equivalent>)

  function Escaped(tallies: seq<Tally>): seq<string> {
    if tallies == [] then [] else Escaped(tallies[..|tallies| - 1]) + tallies[|tallies| - 1].escaped
  }

  function CountOf(tallies: seq<Tally>, standings: set<Standing>): nat {
    if tallies == [] then 0
    else CountOf(tallies[..|tallies| - 1], standings) + (if tallies[|tallies| - 1].Standing() in standings then 1 else 0)
  }

  /** Where nothing was viable it turns on whether there's code, and otherwise on whether anything escaped. */
  lemma StandingsAre(t: Tally)
    ensures t.Standing() == NothingMeasured <==> t.viable == 0 && t.holdsCode
    ensures t.Standing() == NothingToMeasure <==> t.viable == 0 && !t.holdsCode
    ensures t.Standing() == Met <==> t.viable > 0 && t.escaped == []
    ensures t.Fails() <==> (t.viable == 0 && t.holdsCode) || (t.viable > 0 && t.escaped != [])
  {}

  lemma {:induction false} NoneCounted(tallies: seq<Tally>, standings: set<Standing>)
    ensures CountOf(tallies, standings) == 0 <==> forall t | t in tallies :: t.Standing() !in standings
  {
    if tallies != [] {
      var last := |tallies| - 1;
      NoneCounted(tallies[..last], standings);
      assert forall t :: t in tallies <==> t in tallies[..last] || t == tallies[last];
    }
  }

  /** A verdict comes to this: passed, with what was excused and, of a full run, how many floors had nothing to
      measure; or failed, with how many fell short and what escaped and is stale, in order. */
  ghost predicate ComesTo(verdict: Verdict, scope: Scope, c: Conclusion) {
    if Passes(verdict) then
      var unmeasured := CountOf(verdict.tallies, {NothingToMeasure});
      c == Passed(if unmeasured > 0 && scope == Full then Some(unmeasured) else None, AllExcused(verdict.tallies))
    else
      c == Failed(CountOf(verdict.tallies, {Below, NothingMeasured}), Escaped(verdict.tallies), verdict.stale)
  }

  method Conclude(verdict: Verdict, scope: Scope) returns (c: Conclusion)
    ensures c.Passed? <==> Passes(verdict)
    ensures ComesTo(verdict, scope, c)
  {
    var tallies := verdict.tallies;
    var excused: seq<Equivalent>, escaped: seq<string> := [], [];
    var short, unmeasured := 0, 0;
    for i := 0 to |tallies|
      invariant excused == AllExcused(tallies[..i]) && escaped == Escaped(tallies[..i])
      invariant short == CountOf(tallies[..i], {Below, NothingMeasured})
      invariant unmeasured == CountOf(tallies[..i], {NothingToMeasure})
    {
      assert tallies[..i + 1][..i] == tallies[..i];
      excused, escaped := excused + tallies[i].excused, escaped + tallies[i].escaped;
      if tallies[i].Fails() {
        short := short + 1;
      } else if tallies[i].Standing() == NothingToMeasure {
        unmeasured := unmeasured + 1;
      }
    }
    assert tallies[..|tallies|] == tallies;
    NoneCounted(tallies, {Below, NothingMeasured});
    if short == 0 && verdict.stale == [] {
      c := Passed(if unmeasured > 0 && scope == Full then Some(unmeasured) else None, excused);
    } else {
      c := Failed(short, escaped, verdict.stale);
    }
  }

  /** What lies where a run's report is looked for. */
  datatype Report = Missing | Unreadable | Holding(outcomes: seq<Outcome>)

  /** How a run of the tool went: it wasn't started, or it ended, with a code unless it was killed, and wrote
      a report unless it found nothing to mutate. */
  datatype ToolRun = NotStarted | Ended(code: Option<int>, wrote: Report)

  datatype Result<+T> = Ok(value: T) | Err(error: RunError)

  datatype RunError =
    | CannotWrite | CannotCreate | CannotForget | DidNotStart | TestedNothing | CannotRead
    | NotPassed(Conclusion)

  /** The exit codes of a run that tested every mutant. */
  predicate LeavesOutcomes(code: Option<int>) { code in {Some(0), Some(2), Some(3)} }

  datatype Note = NothingChanged | NothingViable | OnlyWhatChanged

  /** What a run that ended so is to be read as, whatever report lay there before. */
  function ReadAs(run: ToolRun): Result<seq<Outcome>> {
    match run
    case NotStarted => Err(DidNotStart)
    case Ended(code, wrote) =>
      if !LeavesOutcomes(code) then Err(TestedNothing)
      else OutcomesIn(wrote)
  }

  /** A report that isn't there is that of a run with nothing to mutate. */
  function OutcomesIn(report: Report): Result<seq<Outcome>> {
    match report
    case Missing => Ok([])
    case Unreadable => Err(CannotRead)
    case Holding(outcomes) => Ok(outcomes)
  }

  /** A run is read as these outcomes: it tested every mutant, which its exit code tells, and left them in its report,
      or left none and there are none. */
  ghost predicate WasRead(run: ToolRun, outcomes: seq<Outcome>) {
    && run.Ended? && (run.code == Some(0) || run.code == Some(2) || run.code == Some(3))
    && (run.wrote == Holding(outcomes) || (run.wrote == Missing && outcomes == []))
  }

  /** Any other run fails, each for its own reason. */
  lemma RunsAreRead(run: ToolRun)
    ensures ReadAs(run).Ok? <==> exists outcomes :: WasRead(run, outcomes)
    ensures ReadAs(run).Ok? ==> WasRead(run, ReadAs(run).value)
    ensures run == NotStarted <==> ReadAs(run) == Err(DidNotStart)
    ensures ReadAs(run) == Err(TestedNothing) <==>
              run.Ended? && run.code != Some(0) && run.code != Some(2) && run.code != Some(3)
    ensures ReadAs(run).Err? ==> ReadAs(run).error in {DidNotStart, TestedNothing, CannotRead}
  {
    if ReadAs(run).Ok? {
      assert WasRead(run, ReadAs(run).value);
    }
  }

  /** The directory a run writes its report under. */
  class Output {
    var report: Report

    constructor ()
      ensures report == Missing
    {
      report := Missing;
    }

    /** Clears away the last run's report; where there is none, that's well too. */
    method ForgetLastReport(removable: bool) returns (ok: bool)
      modifies this
      ensures ok <==> removable || old(report) == Missing
      ensures report == if ok then Missing else old(report)
    {
      ok := report == Missing || removable;
      if ok {
        report := Missing;
      }
    }

    /** The outcomes read are those this run wrote, never an earlier run's. */
    method TestMutants(run: ToolRun, removable: bool) returns (r: Result<seq<Outcome>>)
      modifies this
      ensures old(report) != Missing && !removable ==> r == Err(CannotForget) && report == old(report)
      ensures old(report) == Missing || removable ==> r == ReadAs(run)
      ensures old(report) == Missing || removable ==> report == if run.Ended? then run.wrote else Missing
      ensures r.Ok? ==> WasRead(run, r.value)
      ensures (old(report) == Missing || removable) && (exists outcomes :: WasRead(run, outcomes)) ==> r.Ok?
    {
      var forgotten := ForgetLastReport(removable);
      if !forgotten {
        return Err(CannotForget);
      }
      if run.NotStarted? {
        return Err(DidNotStart);
      }
      report := run.wrote;
      if !LeavesOutcomes(run.code) {
        return Err(TestedNothing);
      }
      r := OutcomesIn(report);
    }

    /** The full run: it passes exactly when the outcomes it read meet the exact floor. */
    method Check(crates: seq<FloorCrate>, named: seq<Equivalent>, run: ToolRun, removable: bool)
      returns (r: Result<Conclusion>)
      modifies this
      ensures r.Ok? <==>
                && (old(report) == Missing || removable)
                && ReadAs(run).Ok?
                && FloorStats(ReadAs(run).value, crates).missed == NamedBag(named)
                && FloorStats(ReadAs(run).value, crates).unjudged == 0
                && Measured(ReadAs(run).value, crates)
      ensures old(report) == Missing || removable ==>
                match ReadAs(run)
                case Err(error) => r == Err(error)
                case Ok(outcomes) =>
                  var verdict := Judged(outcomes, crates, named, Full);
                  exists c :: ComesTo(verdict, Full, c) && r == if Passes(verdict) then Ok(c) else Err(NotPassed(c))
    {
      var outcomes := TestMutants(run, removable);
      if outcomes.Err? {
        return Err(outcomes.error);
      }
      var verdict := Judge(outcomes.value, crates, named, Full);
      var concluded := Conclude(verdict, Full);
      FullRunIsExact(outcomes.value, crates, named);
      r := if concluded.Passed? then Ok(concluded) else Err(NotPassed(concluded));
    }

    /** The scoped run: an empty diff passes with no run, and any other passes exactly when the diff and the
        directory could be made, what was missed is within what is named and every mutant got a verdict. */
    method TestChanged(diff: string, crates: seq<FloorCrate>, named: seq<Equivalent>, writable: bool, creatable: bool,
                       run: ToolRun, removable: bool)
      returns (r: Result<Note>)
      modifies this
      ensures diff == [] ==> r == Ok(NothingChanged) && report == old(report)
      ensures diff != [] && !(writable && creatable) ==>
                r == Err(if writable then CannotCreate else CannotWrite) && report == old(report)
      ensures diff != [] ==>
                (r.Ok? <==>
                  && writable && creatable
                  && (old(report) == Missing || removable)
                  && ReadAs(run).Ok?
                  && FloorStats(ReadAs(run).value, crates).missed <= NamedBag(named)
                  && FloorStats(ReadAs(run).value, crates).unjudged == 0)
      ensures diff != [] && r.Ok? ==>
                (r.value == NothingViable <==>
                  forall krate | krate in crates :: StatsOf(ReadAs(run).value, krate.package).Viable() == 0)
      ensures diff != [] && r.Ok? ==> r.value in {NothingViable, OnlyWhatChanged}
      ensures diff != [] && writable && creatable && (old(report) == Missing || removable) && r.Err? ==>
                match ReadAs(run)
                case Err(error) => r == Err(error)
                case Ok(outcomes) =>
                  exists c :: ComesTo(Judged(outcomes, crates, named, Changed), Changed, c) && r == Err(NotPassed(c))
    {
      if diff == [] {
        return Ok(NothingChanged);
      }
      if !writable {
        return Err(CannotWrite);
      }
      if !creatable {
        return Err(CannotCreate);
      }
      var outcomes := TestMutants(run, removable);
      if outcomes.Err? {
        return Err(outcomes.error);
      }
      var verdict := Judge(outcomes.value, crates, named, Changed);
      ScopedRunIsInclusion(outcomes.value, crates, named);
      ViableCounts(outcomes.value, crates, named, Changed);
      if forall t | t in verdict.tallies :: t.viable == 0 {
        return Ok(NothingViable);
      }
      var concluded := Conclude(verdict, Changed);
      r := if concluded.Passed? then Ok(OnlyWhatChanged) else Err(NotPassed(concluded));
    }
  }

  /** A run whose tallies hold nothing viable measured nothing in any crate, and passes a scoped run. */
  lemma ViableCounts(outcomes: seq<Outcome>, crates: seq<FloorCrate>, named: seq<Equivalent>, scope: Scope)
    ensures var tallies := Judged(outcomes, crates, named, scope).tallies;
            (forall t | t in tallies :: t.viable == 0)
            <==> forall krate | krate in crates :: StatsOf(outcomes, krate.package).Viable() == 0
    ensures var verdict := Judged(outcomes, crates, named, Changed);
            (forall t | t in verdict.tallies :: t.viable == 0) ==> Passes(verdict)
  {
    hide AfterCrates, StatsOf;
    ViableByIndex(outcomes, crates, named, scope);
    var tallies := Judged(outcomes, crates, named, scope).tallies;
    assert (forall t | t in tallies :: t.viable == 0) <==> forall c | 0 <= c < |tallies| :: tallies[c].viable == 0;
    var verdict := Judged(outcomes, crates, named, Changed);
    forall c: nat | c < |crates| ensures !verdict.tallies[c].holdsCode {
      EachTally(outcomes, crates, named, Changed, c);
    }
  }

  lemma ViableByIndex(outcomes: seq<Outcome>, crates: seq<FloorCrate>, named: seq<Equivalent>, scope: Scope)
    ensures forall c | 0 <= c < |crates| ::
              Judged(outcomes, crates, named, scope).tallies[c].viable == StatsOf(outcomes, crates[c].package).Viable()
  {
    forall c: nat | c < |crates|
      ensures Judged(outcomes, crates, named, scope).tallies[c].viable == StatsOf(outcomes, crates[c].package).Viable()
    {
      EachTally(outcomes, crates, named, scope, c);
    }
  }

  lemma {:induction false} NothingRanNothingCounts(package: string, crates: seq<FloorCrate>)
    ensures StatsOf([], package).Viable() == 0 && FloorStats([], crates) == NOTHING
  {
    if crates != [] {
      NothingRanNothingCounts(package, crates[..|crates| - 1]);
      PlusRegroups(NOTHING, NOTHING, NOTHING);
    }
  }

  /** A run that wrote no report passes the full floor only with nothing named and no crate to measure. */
  lemma AnEmptyRunMeasuresNothing(crates: seq<FloorCrate>, named: seq<Equivalent>)
    ensures Passes(Judged([], crates, named, Full)) <==> named == [] && forall k | k in crates :: !k.holdsCode
  {
    FullRunIsExact([], crates, named);
    NothingRanNothingCounts("", crates);
    NamedBagSize(named);
    forall k | k in crates ensures StatsOf([], k.package).Viable() == 0 {
      NothingRanNothingCounts(k.package, crates);
    }
  }
}
