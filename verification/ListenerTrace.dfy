/** What the listener's protocol allows, as an automaton over what the step does to the checker, and what
    every trace it accepts is known by. */
module ListenerTrace {

  datatype Ports = Ports(grpc: nat, admin: nat)

  /** Who wrote the report: a run before this one, or a checker by its number. */
  datatype Writer = Earlier | Weaver(pid: nat)

  datatype Event =
    | Spawned(pid: nat, ports: Ports)
    | Ready(admin: nat)
    | SawExit(pid: nat)
    | Ran(grpc: nat)
    | AskedToStop(admin: nat)
    | Reaped(pid: nat)
    | Judged(writer: Writer)

  datatype Phase =
    | Idle
    | Starting(pid: nat, ports: Ports, spawns: nat)
    | Exited(pid: nat, spawns: nat)
    | Gone(pid: nat, spawns: nat)
    | Serving(pid: nat, ports: Ports)
    | Stopping(pid: nat)
    | Stopped(pid: nat)
    | Over(pid: nat)
    | Bad

  function Next(phase: Phase, event: Event): Phase {
    match phase
    case Idle =>
      if event.Spawned? then Starting(event.pid, event.ports, 1) else Bad
    case Starting(pid, ports, spawns) =>
      if event == Ready(ports.admin) then Serving(pid, ports)
      else if event == SawExit(pid) then Exited(pid, spawns)
      else if event == Reaped(pid) then Over(pid)
      else Bad
    case Exited(pid, spawns) =>
      if event == Reaped(pid) then Gone(pid, spawns) else Bad
    case Gone(pid, spawns) =>
      if event == Reaped(pid) then phase
      else if event.Spawned? && spawns < 2 then Starting(event.pid, event.ports, spawns + 1)
      else Bad
    case Serving(pid, ports) =>
      if event == Ran(ports.grpc) then phase
      else if event == AskedToStop(ports.admin) then Stopping(pid)
      else if event == Reaped(pid) then Over(pid)
      else Bad
    case Stopping(pid) =>
      if event == SawExit(pid) then Stopped(pid)
      else if event == Reaped(pid) then Over(pid)
      else Bad
    case Stopped(pid) =>
      if event.Judged? && event.writer.Weaver? then phase
      else if event == Reaped(pid) then Over(pid)
      else Bad
    case Over(pid) =>
      if event == Reaped(pid) then phase else Bad
    case Bad => Bad
  }

  function PhaseOf(trace: seq<Event>): Phase {
    if trace == [] then Idle else Next(PhaseOf(trace[..|trace| - 1]), trace[|trace| - 1])
  }

  predicate Allowed(trace: seq<Event>) { PhaseOf(trace) != Bad }

  /** A trace after which no checker is left to stop. */
  predicate Settled(trace: seq<Event>) {
    PhaseOf(trace) == Idle || PhaseOf(trace).Gone? || PhaseOf(trace).Over?
  }

  lemma {:induction false} PrefixesAllowed(trace: seq<Event>, n: nat)
    requires Allowed(trace) && n <= |trace|
    ensures Allowed(trace[..n])
  {
    if n < |trace| {
      PrefixesAllowed(trace[..|trace| - 1], n);
      assert trace[..|trace| - 1][..n] == trace[..n];
    } else {
      assert trace[..n] == trace;
    }
  }

  // ----- spawns -----

  function CountSpawns(trace: seq<Event>): nat {
    if trace == [] then 0
    else CountSpawns(trace[..|trace| - 1]) + (if trace[|trace| - 1].Spawned? then 1 else 0)
  }

  function CountRuns(trace: seq<Event>): nat {
    if trace == [] then 0
    else CountRuns(trace[..|trace| - 1]) + (if trace[|trace| - 1].Ran? then 1 else 0)
  }

  /** The checkers a trace started. */
  function PidsOf(trace: seq<Event>): set<nat> {
    if trace == [] then {}
    else PidsOf(trace[..|trace| - 1]) + (if trace[|trace| - 1].Spawned? then {trace[|trace| - 1].pid} else {})
  }

  /** What one more event does to the phase and the counts. */
  lemma Said(trace: seq<Event>, event: Event)
    ensures PhaseOf(trace + [event]) == Next(PhaseOf(trace), event)
    ensures CountSpawns(trace + [event]) == CountSpawns(trace) + (if event.Spawned? then 1 else 0)
    ensures CountRuns(trace + [event]) == CountRuns(trace) + (if event.Ran? then 1 else 0)
    ensures PidsOf(trace + [event]) == PidsOf(trace) + (if event.Spawned? then {event.pid} else {})
  {
    assert (trace + [event])[..|trace|] == trace;
  }

  /** No more than two checkers are ever started, and a phase that counts them counts right. */
  lemma {:induction false} AtMostTwoSpawns(trace: seq<Event>)
    requires Allowed(trace)
    ensures CountSpawns(trace) <= 2
    ensures PhaseOf(trace).Idle? ==> CountSpawns(trace) == 0
    ensures PhaseOf(trace).Starting? || PhaseOf(trace).Exited? || PhaseOf(trace).Gone? ==>
              CountSpawns(trace) == PhaseOf(trace).spawns
  {
    if trace != [] {
      AtMostTwoSpawns(trace[..|trace| - 1]);
    }
  }

  /** `pid` was started at `i`, and has not been stopped for good since. */
  ghost predicate StartedAt(trace: seq<Event>, i: nat, pid: nat) {
    && i < |trace| && trace[i].Spawned? && trace[i].pid == pid
    && forall k | i < k < |trace| :: !trace[k].Spawned?
  }

  /** After a start and before the next event that settles it, the phase names the last one started. */
  lemma {:induction false} PhaseNamesTheLast(trace: seq<Event>) returns (i: nat)
    requires Allowed(trace) && !PhaseOf(trace).Idle?
    ensures StartedAt(trace, i, PhaseOf(trace).pid)
    ensures PhaseOf(trace).Starting? ==> i == |trace| - 1 && trace[i].ports == PhaseOf(trace).ports
    ensures PhaseOf(trace).Serving? ==> trace[i].ports == PhaseOf(trace).ports
  {
    var init, last := trace[..|trace| - 1], trace[|trace| - 1];
    if last.Spawned? {
      i := |trace| - 1;
    } else {
      i := PhaseNamesTheLast(init);
      assert init[i] == trace[i];
    }
  }

  /** How an exited checker got to be gone: its exit was seen, it never answered, and it was reaped. */
  lemma {:induction false} GoneWasSeenToExit(trace: seq<Event>, i: nat) returns (exit: nat, reaped: nat)
    requires Allowed(trace) && PhaseOf(trace).Gone? && StartedAt(trace, i, PhaseOf(trace).pid)
    ensures i < exit < reaped < |trace|
    ensures trace[exit] == SawExit(PhaseOf(trace).pid) && trace[reaped] == Reaped(PhaseOf(trace).pid)
    ensures forall k | i < k < |trace| :: !trace[k].Ready? && !trace[k].Ran?
  {
    var init := trace[..|trace| - 1];
    var pid := PhaseOf(trace).pid;
    assert Allowed(init);
    if PhaseOf(init).Gone? {
      exit, reaped := GoneWasSeenToExit(init, i);
    } else {
      assert PhaseOf(init).Exited?;
      reaped := |trace| - 1;
      exit := |trace| - 2;
      var before := init[..|init| - 1];
      assert PhaseOf(before).Starting?;
      var j := PhaseNamesTheLast(before);
      assert before[j] == trace[j];
      assert i == j;
    }
  }

  /** A second checker is started only once the first was seen to exit and was reaped, having neither
      answered as ready nor been run against. */
  lemma SecondOnlyAfterTheFirstExited(trace: seq<Event>, i: nat, j: nat) returns (exit: nat, reaped: nat)
    requires Allowed(trace) && i < j < |trace| && trace[i].Spawned? && trace[j].Spawned?
    ensures i < exit < reaped < j
    ensures trace[exit] == SawExit(trace[i].pid) && trace[reaped] == Reaped(trace[i].pid)
    ensures forall k | i < k < j :: !trace[k].Ready? && !trace[k].Ran?
  {
    var before := trace[..j];
    PrefixesAllowed(trace, j);
    PrefixesAllowed(trace, j + 1);
    assert trace[..j + 1][..j] == before;
    assert PhaseOf(trace[..j + 1]) == Next(PhaseOf(before), trace[j]);
    NoSpawnIsIdle(before, i);
    assert PhaseOf(before).Gone?;
    var last := PhaseNamesTheLast(before);
    if last != i {
      ThirdIsNotAllowed(trace, i, last, j);
    }
    exit, reaped := GoneWasSeenToExit(before, i);
  }

  lemma NoSpawnIsIdle(trace: seq<Event>, i: nat)
    requires Allowed(trace) && i < |trace| && trace[i].Spawned?
    ensures !PhaseOf(trace).Idle?
  {
    CountIncludes(trace, i);
    AtMostTwoSpawns(trace);
  }

  lemma {:induction false} CountIncludes(trace: seq<Event>, i: nat)
    requires i < |trace| && trace[i].Spawned?
    ensures CountSpawns(trace) >= 1
    ensures forall j | 0 <= j < i && trace[j].Spawned? :: CountSpawns(trace) >= 2
  {
    if i < |trace| - 1 {
      CountIncludes(trace[..|trace| - 1], i);
    } else if j :| 0 <= j < i && trace[j].Spawned? {
      CountIncludes(trace[..|trace| - 1], j);
    }
  }

  lemma ThirdIsNotAllowed(trace: seq<Event>, i: nat, j: nat, k: nat)
    requires i < |trace| && j < |trace| && k < |trace| && i < j < k
    requires trace[i].Spawned? && trace[j].Spawned? && trace[k].Spawned?
    ensures !Allowed(trace)
  {
    if Allowed(trace) {
      PrefixesAllowed(trace, k + 1);
      var upTo := trace[..k + 1];
      assert upTo[..k] == trace[..k];
      CountIncludes(upTo[..k], j);
      AtMostTwoSpawns(upTo);
    }
  }

  // ----- runs and reports -----

  lemma {:induction false} ServingAnswered(trace: seq<Event>) returns (spawn: nat, ready: nat)
    requires Allowed(trace) && PhaseOf(trace).Serving?
    ensures spawn < ready < |trace|
    ensures trace[spawn] == Spawned(PhaseOf(trace).pid, PhaseOf(trace).ports)
    ensures trace[ready] == Ready(PhaseOf(trace).ports.admin)
    ensures forall k | spawn < k < |trace| :: !trace[k].Spawned? && !trace[k].Reaped? && !trace[k].SawExit?
  {
    var init, last := trace[..|trace| - 1], trace[|trace| - 1];
    if PhaseOf(init).Serving? {
      spawn, ready := ServingAnswered(init);
    } else {
      assert PhaseOf(init).Starting?;
      spawn := PhaseNamesTheLast(init);
      ready := |trace| - 1;
      assert trace[spawn] == init[spawn];
    }
  }

  /** Every run is made against the ports of a checker that was started with them and answered as ready,
      and that nothing has stopped since. */
  lemma RunsOnlyOnceReady(trace: seq<Event>, i: nat) returns (spawn: nat, ready: nat)
    requires Allowed(trace) && i < |trace| && trace[i].Ran?
    ensures spawn < ready < i
    ensures trace[spawn].Spawned? && trace[spawn].ports.grpc == trace[i].grpc
    ensures trace[ready] == Ready(trace[spawn].ports.admin)
    ensures forall k | spawn < k < i :: !trace[k].Spawned? && !trace[k].Reaped? && !trace[k].SawExit?
  {
    PrefixesAllowed(trace, i);
    PrefixesAllowed(trace, i + 1);
    assert trace[..i + 1][..i] == trace[..i];
    assert PhaseOf(trace[..i + 1]) == Next(PhaseOf(trace[..i]), trace[i]);
    spawn, ready := ServingAnswered(trace[..i]);
  }

  lemma {:induction false} StoppedWasAsked(trace: seq<Event>) returns (asked: nat, exit: nat)
    requires Allowed(trace) && PhaseOf(trace).Stopped?
    ensures asked < exit < |trace| && trace[asked].AskedToStop? && trace[exit] == SawExit(PhaseOf(trace).pid)
  {
    var init := trace[..|trace| - 1];
    if PhaseOf(init).Stopped? {
      asked, exit := StoppedWasAsked(init);
    } else {
      assert PhaseOf(init).Stopping?;
      exit := |trace| - 1;
      asked := |trace| - 2;
      assert trace[asked] == init[|init| - 1];
    }
  }

  /** A report is judged only once the checker was asked to stop and was then seen to have exited, and it is
      one that a checker of this step wrote. */
  lemma JudgesOnlyAWholeReport(trace: seq<Event>, i: nat) returns (asked: nat, exit: nat)
    requires Allowed(trace) && i < |trace| && trace[i].Judged?
    ensures asked < exit < i && trace[asked].AskedToStop? && trace[exit].SawExit?
    ensures trace[i].writer.Weaver?
  {
    PrefixesAllowed(trace, i);
    PrefixesAllowed(trace, i + 1);
    assert trace[..i + 1][..i] == trace[..i];
    assert PhaseOf(trace[..i + 1]) == Next(PhaseOf(trace[..i]), trace[i]);
    asked, exit := StoppedWasAsked(trace[..i]);
  }
}
