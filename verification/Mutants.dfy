/** The exact mutation floor: a run's outcomes are matched greedily with a list of mutants named as
    equivalent, and the verdict is shown to be a comparison of two bags of names. */
module Mutants {
  import opened Floors
  import opened Text

  // ----- what is read and what is written down -----

  datatype Mutant = Mutant(name: string, package: string, file: string) {

    /** The text of a name that is behind its file and position. */
    function Description(): Option<string> {
      if !(file <= name) then None
      else
        var position := name[|file|..];
        if position == [] || position[0] != ':' then None
        else
          match SplitOnce(position[1..], ":")
          case None => None
          case Some((line, rest)) =>
            match SplitOnce(rest, ": ")
            case None => None
            case Some((column, description)) =>
              if IsNumber(line) && IsNumber(column) then Some(description) else None
    }

    /** The mutant without its position; a name of any other shape has no key. */
    function Key(): Option<Key> {
      match Description()
      case None => None
      case Some(description) => Some(K(package, file, description))
    }

    predicate IsNamedBy(entry: Equivalent) {
      package == entry.package && file == entry.file && Description() == Some(entry.mutant)
    }
  }

  datatype Key = K(package: string, file: string, mutant: string)

  datatype Scenario = Baseline | Mutated(mutant: Mutant)

  datatype Outcome = Outcome(scenario: Scenario, summary: string)

  datatype Equivalent = Equivalent(package: string, file: string, mutant: string, reason: string) {
    function Key(): Key { K(package, file, mutant) }
  }

  datatype FloorCrate = FloorCrate(package: string, holdsCode: bool)

  datatype Scope = Full | Changed

  datatype Tally = Tally(
    package: string,
    caught: nat,
    viable: nat,
    excused: seq<Equivalent>,
    escaped: seq<string>,
    holdsCode: bool)
  {
    function Standing(): Standing {
      if viable == 0 && holdsCode then NothingMeasured
      else if viable == 0 then NothingToMeasure
      else if escaped == [] then Met
      else Below
    }

    predicate Fails() { Standing() in {Below, NothingMeasured} }
  }

  datatype Verdict = Verdict(tallies: seq<Tally>, stale: seq<Equivalent>)

  // ----- a mutant's name -----

  /** How a mutant's name is printed. */
  function Printed(file: string, line: string, column: string, description: string): string {
    file + ":" + line + ":" + column + ": " + description
  }

  /** Taking the position off undoes the printing, whatever the description holds. */
  lemma DescriptionUndoesPrinting(file: string, package: string, line: string, column: string, description: string)
    requires IsNumber(line) && IsNumber(column)
    ensures Mutant(Printed(file, line, column, description), package, file).Description() == Some(description)
  {
    var name := Printed(file, line, column, description);
    var rest := column + ": " + description;
    PrintedNested(file, line, column, description);
    assert name[|file|..] == ":" + (line + ":" + rest);
    assert name[|file|..][1..] == line + ":" + rest;
    NumberHoldsNo(line, ':');
    SplitOnceChar(line, ':', rest);
    NumberHoldsNo(column, ':');
    SplitOncePair(column, ": ", description);
  }

  /** Where a description is read, the position ahead of it is a line and a column. */
  lemma PositionOf(m: Mutant, description: string) returns (line: string, column: string)
    requires m.Description() == Some(description)
    ensures IsNumber(line) && IsNumber(column) && m.name == Printed(m.file, line, column, description)
  {
    hide SplitOnce, Printed;
    var position := m.name[|m.file|..];
    var (before, rest) := SplitOnce(position[1..], ":").value;
    line, column := before, SplitOnce(rest, ": ").value.0;
    assert position == ":" + position[1..];
    assert m.name == m.file + position;
    PrintedNested(m.file, line, column, description);
  }

  lemma PrintedNested(file: string, line: string, column: string, description: string)
    ensures Printed(file, line, column, description) == file + (":" + (line + ":" + (column + ": " + description)))
  {
    var rest := column + ": " + description;
    Assoc(file + ":" + line + ":" + column, ": ", description);
    Assoc(file + ":" + line + ":", column, ": " + description);
    Assoc(column, ": ", description);
    Assoc(file + ":" + line, ":", rest);
    Assoc(file + ":", line, ":" + rest);
    Assoc(line, ":", rest);
    Assoc(file, ":", line + ":" + rest);
  }

  /** A description is read exactly from the names of the printed shape, and no other. */
  lemma DescriptionIsThePrinted(m: Mutant, description: string)
    ensures m.Description() == Some(description) <==>
            exists line, column ::
              IsNumber(line) && IsNumber(column) && m.name == Printed(m.file, line, column, description)
  {
    if m.Description() == Some(description) {
      var line, column := PositionOf(m, description);
    } else {
      forall line, column | IsNumber(line) && IsNumber(column)
        ensures m.name != Printed(m.file, line, column, description)
      {
        DescriptionUndoesPrinting(m.file, m.package, line, column, description);
      }
    }
  }

  /** Whether an entry names a mutant doesn't turn on its line or its column. */
  lemma NamingIgnoresPosition(
      package: string, file: string, description: string, entry: Equivalent,
      line: string, column: string, line': string, column': string)
    requires IsNumber(line) && IsNumber(column) && IsNumber(line') && IsNumber(column')
    ensures Mutant(Printed(file, line, column, description), package, file).IsNamedBy(entry)
       <==> Mutant(Printed(file, line', column', description), package, file).IsNamedBy(entry)
  {
    DescriptionUndoesPrinting(file, package, line, column, description);
    DescriptionUndoesPrinting(file, package, line', column', description);
  }

  // ----- judging -----

  predicate IsFree(named: seq<Equivalent>, used: seq<bool>, m: Mutant, i: nat)
    requires |named| == |used| && i < |named|
  {
    !used[i] && m.IsNamedBy(named[i])
  }

  ghost predicate NoneFree(named: seq<Equivalent>, used: seq<bool>, m: Mutant, from: nat, to: nat)
    requires |named| == |used| && to <= |named|
  {
    forall i: nat | from <= i < to :: !IsFree(named, used, m, i)
  }

  lemma NoneFreeAhead(named: seq<Equivalent>, used: seq<bool>, m: Mutant, from: nat, to: nat)
    requires |named| == |used| && from < |named| && to <= |named|
    requires !IsFree(named, used, m, from) && NoneFree(named, used, m, from + 1, to)
    ensures NoneFree(named, used, m, from, to)
  {
    hide IsFree;
  }

  function FirstFreeFrom(named: seq<Equivalent>, used: seq<bool>, m: Mutant, from: nat): (r: Option<nat>)
    requires |named| == |used| && from <= |named|
    ensures r.Some? ==> from <= r.value < |named| && IsFree(named, used, m, r.value)
    ensures NoneFree(named, used, m, from, if r.Some? then r.value else |named|)
    decreases |named| - from
  {
    if from == |named| then None
    else if IsFree(named, used, m, from) then Some(from)
    else
      hide *;
      var r := FirstFreeFrom(named, used, m, from + 1);
      NoneFreeAhead(named, used, m, from, if r.Some? then r.value else |named|);
      r
  }

  /** The first entry not used yet that names `m`. */
  function FirstFree(named: seq<Equivalent>, used: seq<bool>, m: Mutant): (r: Option<nat>)
    requires |named| == |used|
    ensures r.Some? ==> r.value < |named| && IsFree(named, used, m, r.value)
    ensures r.None? ==> forall i: nat | i < |named| :: !IsFree(named, used, m, i)
    ensures r.Some? ==> forall i: nat | i < r.value :: !IsFree(named, used, m, i)
  {
    FirstFreeFrom(named, used, m, 0)
  }

  /** What a summary says of its mutant. */
  datatype Said = Caught | Missed | TimedOut | Unviable | Other(summary: string)

  function Reading(summary: string): Said {
    match summary
    case "CaughtMutant" => Caught
    case "MissedMutant" => Missed
    case "Timeout" => TimedOut
    // Not built, so not counted.
    case "Unviable" => Unviable
    // No verdict, for whatever reason.
    case other => Other(other)
  }

  datatype Books = Books(used: seq<bool>, tally: Tally)

  /** One outcome entered in the books of its crate. */
  function Entered(named: seq<Equivalent>, books: Books, outcome: Outcome): (r: Books)
    requires |books.used| == |named|
    ensures |r.used| == |named|
  {
    var t := books.tally;
    if outcome.scenario.Baseline? || outcome.scenario.mutant.package != t.package then books
    else
      var m := outcome.scenario.mutant;
      match Reading(outcome.summary)
      case Caught =>
        books.(tally := t.(caught := t.caught + 1, viable := t.viable + 1))
      case Missed =>
        (match FirstFree(named, books.used, m)
         case Some(entry) =>
           Books(books.used[entry := true], t.(viable := t.viable + 1, excused := t.excused + [named[entry]]))
         case None =>
           books.(tally := t.(viable := t.viable + 1, escaped := t.escaped + [m.name + " (missed)"])))
      case TimedOut =>
        books.(tally := t.(viable := t.viable + 1, escaped := t.escaped + [m.name + " (timed out)"]))
      case Unviable =>
        books
      case Other(summary) =>
        books.(tally := t.(viable := t.viable + 1, escaped := t.escaped + [m.name + " (" + summary + ")"]))
  }

  function AfterOutcomes(named: seq<Equivalent>, outcomes: seq<Outcome>, books: Books): (r: Books)
    requires |books.used| == |named|
    ensures |r.used| == |named|
  {
    if outcomes == [] then books
    else
      var last := |outcomes| - 1;
      Entered(named, AfterOutcomes(named, outcomes[..last], books), outcomes[last])
  }

  function Opened(krate: FloorCrate, scope: Scope): Tally {
    Tally(krate.package, 0, 0, [], [], krate.holdsCode && scope == Full)
  }

  datatype Ledger = Ledger(used: seq<bool>, tallies: seq<Tally>)

  function AfterCrates(
      outcomes: seq<Outcome>, crates: seq<FloorCrate>, named: seq<Equivalent>, scope: Scope): (r: Ledger)
    ensures |r.used| == |named|
    ensures |r.tallies| == |crates|
  {
    if crates == [] then Ledger(seq(|named|, _ => false), [])
    else
      var last := |crates| - 1;
      var before := AfterCrates(outcomes, crates[..last], named, scope);
      var books := AfterOutcomes(named, outcomes, Books(before.used, Opened(crates[last], scope)));
      Ledger(books.used, before.tallies + [books.tally])
  }

  /** The entries whose flag is `want`, in order. */
  function Flagged(named: seq<Equivalent>, used: seq<bool>, want: bool): seq<Equivalent>
    requires |named| == |used|
  {
    if named == [] then []
    else
      var last := |named| - 1;
      Flagged(named[..last], used[..last], want) + (if used[last] == want then [named[last]] else [])
  }

  function Judged(outcomes: seq<Outcome>, crates: seq<FloorCrate>, named: seq<Equivalent>, scope: Scope): Verdict {
    var ledger := AfterCrates(outcomes, crates, named, scope);
    Verdict(ledger.tallies, if scope == Full then Flagged(named, ledger.used, false) else [])
  }

  method Judge(outcomes: seq<Outcome>, crates: seq<FloorCrate>, named: seq<Equivalent>, scope: Scope)
    returns (verdict: Verdict)
    ensures verdict == Judged(outcomes, crates, named, scope)
  {
    var used := seq(|named|, _ => false);
    var tallies: seq<Tally> := [];
    for c := 0 to |crates|
      invariant Ledger(used, tallies) == AfterCrates(outcomes, crates[..c], named, scope)
    {
      var tally := Opened(crates[c], scope);
      ghost var start := Books(used, tally);
      for o := 0 to |outcomes|
        invariant |used| == |named|
        invariant Books(used, tally) == AfterOutcomes(named, outcomes[..o], start)
      {
        var outcome := outcomes[o];
        assert outcomes[..o + 1][..o] == outcomes[..o];
        assert AfterOutcomes(named, outcomes[..o + 1], start) == Entered(named, Books(used, tally), outcome);
        if outcome.scenario.Baseline? || outcome.scenario.mutant.package != tally.package {
          continue;
        }
        var m := outcome.scenario.mutant;
        match Reading(outcome.summary) {
          case Caught =>
            tally := tally.(caught := tally.caught + 1, viable := tally.viable + 1);
          case Missed =>
            tally := tally.(viable := tally.viable + 1);
            // No entry excuses a second one.
            var entry := FirstFree(named, used, m);
            if entry.Some? {
              used := used[entry.value := true];
              tally := tally.(excused := tally.excused + [named[entry.value]]);
            } else {
              tally := tally.(escaped := tally.escaped + [m.name + " (missed)"]);
            }
          case TimedOut =>
            tally := tally.(viable := tally.viable + 1, escaped := tally.escaped + [m.name + " (timed out)"]);
          case Unviable =>
          case Other(summary) =>
            tally := tally.(viable := tally.viable + 1, escaped := tally.escaped + [m.name + " (" + summary + ")"]);
        }
      }
      assert outcomes[..|outcomes|] == outcomes;
      tallies := tallies + [tally];
      assert crates[..c + 1][..c] == crates[..c];
    }
    assert crates[..|crates|] == crates;
    verdict := Verdict(tallies, if scope == Full then Flagged(named, used, false) else []);
  }
}
