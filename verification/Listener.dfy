/** The live check's listener: a checker is started, awaited, tried once more, run against, stopped and
    killed, while it may exit, hang, write its report or answer at any moment. */
module Listener {
  import opened Text
  import opened ListenerTrace

  const POLL := 250

  datatype Error = Failed | Stalled | NotStarted | Missing | Io | RunFailed

  /** What the outside may withhold. */
  datatype Fault = NoDirectory | BuildFailed | NoPorts | NoSpawn | RunFails | NoAnswer

  datatype Result<+T> = Ok(value: T) | Err(error: Error)

  /** Everything outside the step. `Elapse` may come between any two things the step does; what the step
      can't choose is left open there and in each answer. Only checkers that are alive write the report. */
  class World {
    var now: nat
    var alive: set<nat>
    var born: nat
    var report: Option<Writer>
    var runDirectory: bool
    /** Whether removing the run directory was ever refused. */
    ghost var refused: bool
    /** What was withheld from the step, in order. */
    ghost var withheld: seq<Fault>
    /** What the step did to its checkers, in order. */
    var trace: seq<Event>

    /** No checker is alive but the one the trace says is. */
    ghost predicate Valid()
      reads this
    {
      && Allowed(trace)
      && alive <= PidsOf(trace)
      && (Settled(trace) ==> alive == {})
      && (!Settled(trace) ==> alive <= {PhaseOf(trace).pid})
    }

    /** Never two at once. */
    lemma AtMostOneAlive()
      requires Valid()
      ensures |alive| <= 1
    {
      if !Settled(trace) {
        var pid := PhaseOf(trace).pid;
        if pid in alive {
          assert alive == {pid};
        } else {
          assert alive == {};
        }
      }
    }

    constructor (leftBehind: bool)
      ensures Valid() && trace == [] && alive == {} && !runDirectory && !refused && withheld == []
      ensures report == if leftBehind then Some(Earlier) else None
    {
      now, alive, born, trace, runDirectory, refused, withheld := 0, {}, 0, [], false, false, [];
      report := if leftBehind then Some(Earlier) else None;
    }

    method Elapse()
      requires Valid()
      modifies this`now, this`alive, this`report
      ensures Valid() && now >= old(now) && alive <= old(alive)
      ensures report == old(report) || (report.Some? && report.value.Weaver? && report.value.pid in old(alive))
    {
      hide PhaseOf, CountRuns, PidsOf, CountSpawns;
      var passed: nat, writer: nat :| true;
      var gone: set<nat> := *;
      if writer in alive {
        report := Some(Weaver(writer));
      }
      now, alive := now + passed, alive - gone;
    }

    /** Whether the step gets what it asks for. */
    method Grants(fault: Fault) returns (granted: bool)
      modifies this`withheld
      ensures withheld == if granted then old(withheld) else old(withheld) + [fault]
    {
      granted := *;
      if !granted {
        withheld := withheld + [fault];
      }
    }

    /** As far as it's let: nobody looks at what comes of it. */
    method RemoveRunDirectory()
      modifies this`runDirectory, this`refused
      ensures old(refused) ==> refused
      ensures runDirectory ==> old(runDirectory) && refused
    {
      var refusing: bool := *;
      if refusing {
        refused := true;
      } else {
        runDirectory := false;
      }
    }

    method Sleep()
      requires Valid()
      modifies this`now, this`alive, this`report
      ensures Valid() && now >= old(now) + 250 && alive <= old(alive)
      ensures report == old(report) || (report.Some? && report.value.Weaver? && report.value.pid in old(alive))
    {
      hide PhaseOf, CountRuns, PidsOf, CountSpawns;
      Elapse();
      now := now + POLL;
    }

    /** No report of an earlier run is left: a report there is was written by a checker of the trace. */
    ghost predicate OwnReport()
      reads this
    {
      report.Some? ==> report.value.Weaver? && report.value.pid in PidsOf(trace)
    }
  }

  /** A started checker, which is stopped wherever it goes out of scope. */
  class Listener {
    const pid: nat
    const ports: Ports

    constructor (pid: nat, ports: Ports)
      ensures this.pid == pid && this.ports == ports
    {
      this.pid, this.ports := pid, ports;
    }

    /** Whether it's known to have exited; a poll that fails is as one that finds it running. */
    method TryWait(w: World) returns (exited: bool)
      requires w.Valid() && (PhaseOf(w.trace) == Starting(pid, ports, 1) || PhaseOf(w.trace) == Starting(pid, ports, 2)
                             || PhaseOf(w.trace) == Stopping(pid))
      requires w.OwnReport()
      modifies w
      ensures CountRuns(w.trace) == CountRuns(old(w.trace))
      ensures w.Valid() && w.born == old(w.born)
      ensures w.runDirectory == old(w.runDirectory) && w.withheld == old(w.withheld) && w.now >= old(w.now)
      ensures w.OwnReport()
      ensures w.trace == old(w.trace) + (if exited then [SawExit(pid)] else [])
      ensures PhaseOf(w.trace) == if exited then Next(PhaseOf(old(w.trace)), SawExit(pid)) else PhaseOf(old(w.trace))
      ensures exited ==> w.alive == {}
    {
      hide PhaseOf, CountRuns, PidsOf, CountSpawns;
      w.Elapse();
      exited := *;
      exited := exited && pid !in w.alive;
      if exited {
        Said(w.trace, SawExit(pid));
        w.trace := w.trace + [SawExit(pid)];
      } else {
        Empty(w.trace);
      }
    }

    /** Whether the admin port answers as ready. */
    method Health(w: World) returns (ready: bool)
      requires w.Valid() && PhaseOf(w.trace).Starting? && PhaseOf(w.trace).pid == pid && PhaseOf(w.trace).ports == ports
      requires w.OwnReport()
      modifies w
      ensures CountRuns(w.trace) == CountRuns(old(w.trace))
      ensures w.Valid() && w.born == old(w.born)
      ensures w.runDirectory == old(w.runDirectory) && w.withheld == old(w.withheld) && w.now >= old(w.now)
      ensures w.OwnReport()
      ensures w.trace == old(w.trace) + (if ready then [Ready(ports.admin)] else [])
      ensures PhaseOf(w.trace) == if ready then Next(PhaseOf(old(w.trace)), Ready(ports.admin)) else PhaseOf(old(w.trace))
    {
      hide PhaseOf, CountRuns, PidsOf, CountSpawns;
      w.Elapse();
      ready := *;
      if ready {
        Said(w.trace, Ready(ports.admin));
        w.trace := w.trace + [Ready(ports.admin)];
      } else {
        Empty(w.trace);
      }
    }

    /** Kills it and waits for it to be gone; one that's gone already stays so, and one that can't be killed
        is waited for all the same. */
    method StopNow(w: World)
      requires w.Valid() && !PhaseOf(w.trace).Idle? && PhaseOf(w.trace).pid == pid
      requires w.OwnReport()
      modifies w
      ensures CountRuns(w.trace) == CountRuns(old(w.trace))
      ensures w.Valid() && w.born == old(w.born)
      ensures w.runDirectory == old(w.runDirectory) && w.withheld == old(w.withheld) && w.now >= old(w.now)
      ensures w.OwnReport()
      ensures w.trace == old(w.trace) + [Reaped(pid)] && PhaseOf(w.trace) == Next(PhaseOf(old(w.trace)), Reaped(pid))
      ensures w.alive == {} && Settled(w.trace)
      ensures old(w.alive) == {} ==> w.report == old(w.report)
    {
      hide PhaseOf, CountRuns, PidsOf, CountSpawns;
      w.Elapse();
      Said(w.trace, Reaped(pid));
      w.trace, w.alive := w.trace + [Reaped(pid)], w.alive - {pid};
    }

    /** One of three outcomes: it answered, it was seen to exit ahead of that, or its time ran out and it was
        killed. It's polled no oftener than the time allows. */
    method AwaitReady(w: World, within: nat) returns (r: Result<()>, ghost polls: nat)
      requires w.Valid() && PhaseOf(w.trace).Starting? && PhaseOf(w.trace).pid == pid && PhaseOf(w.trace).ports == ports
      requires PhaseOf(w.trace).spawns <= 2 && 1 <= PhaseOf(w.trace).spawns
      requires w.OwnReport()
      modifies w
      ensures CountRuns(w.trace) == CountRuns(old(w.trace))
      ensures w.Valid() && w.born == old(w.born) && w.runDirectory == old(w.runDirectory) && w.withheld == old(w.withheld)
      ensures w.OwnReport()
      ensures w.now >= old(w.now)
      ensures r.Ok? ==> w.trace == old(w.trace) + [Ready(ports.admin)] && PhaseOf(w.trace) == Serving(pid, ports)
      ensures r.Err? ==> r.error in {Failed, Stalled} && w.alive == {}
      ensures r == Err(Failed) ==> w.trace == old(w.trace) + [SawExit(pid)] + [Reaped(pid)]
                                   && PhaseOf(w.trace) == Gone(pid, PhaseOf(old(w.trace)).spawns)
      ensures r == Err(Stalled) ==> w.trace == old(w.trace) + [Reaped(pid)] && PhaseOf(w.trace) == Over(pid)
                                    && w.now >= old(w.now) + within
      ensures 1 <= polls <= within / 250 + 2
    {
      hide PhaseOf, CountRuns, PidsOf, CountSpawns;
      var started := w.now;
      ghost var trace := w.trace;
      polls := 0;
      while true
        invariant w.Valid() && w.trace == trace && w.born == old(w.born)
        invariant w.runDirectory == old(w.runDirectory) && w.withheld == old(w.withheld)
        invariant w.OwnReport()
        invariant w.now >= started + polls * POLL
        invariant polls > 0 ==> (polls - 1) * POLL < within
        decreases if w.now < started + within then started + within - w.now else 0
      {
        polls := polls + 1;
        var exited := TryWait(w);
        if exited {
          StopNow(w);
          return Err(Failed), polls;
        }
        var ready := Health(w);
        if ready {
          return Ok(()), polls;
        }
        if w.now - started >= within {
          StopNow(w);
          return Err(Stalled), polls;
        }
        w.Sleep();
      }
    }

    method WaitUntil(w: World, within: nat) returns (exited: bool, ghost polls: nat)
      requires w.Valid() && PhaseOf(w.trace) == Stopping(pid)
      requires w.OwnReport()
      modifies w
      ensures CountRuns(w.trace) == CountRuns(old(w.trace)) && w.now >= old(w.now)
      ensures w.Valid() && w.born == old(w.born) && w.runDirectory == old(w.runDirectory) && w.withheld == old(w.withheld)
      ensures w.OwnReport()
      ensures w.trace == old(w.trace) + (if exited then [SawExit(pid)] else [])
      ensures PhaseOf(w.trace) == if exited then Stopped(pid) else Stopping(pid)
      ensures exited ==> w.alive == {}
      ensures !exited ==> w.now >= old(w.now) + within
      ensures 1 <= polls <= within / 250 + 2
    {
      hide PhaseOf, CountRuns, PidsOf, CountSpawns;
      var started := w.now;
      ghost var trace := w.trace;
      polls := 0;
      while true
        invariant w.Valid() && w.trace == trace && w.born == old(w.born)
        invariant w.runDirectory == old(w.runDirectory) && w.withheld == old(w.withheld)
        invariant w.OwnReport()
        invariant w.now >= started + polls * POLL
        invariant polls > 0 ==> (polls - 1) * POLL < within
        decreases if w.now < started + within then started + within - w.now else 0
      {
        polls := polls + 1;
        exited := TryWait(w);
        if exited || w.now - started >= within {
          return;
        }
        w.Sleep();
      }
    }

    /** A polite end: a request, then its exit within the time given, and a kill where that doesn't come. */
    method Stop(w: World, within: nat) returns (r: Result<()>)
      requires w.Valid() && PhaseOf(w.trace) == Serving(pid, ports)
      requires w.OwnReport()
      modifies w
      ensures CountRuns(w.trace) == CountRuns(old(w.trace)) && w.now >= old(w.now)
      ensures w.Valid() && w.born == old(w.born) && w.runDirectory == old(w.runDirectory)
      ensures w.OwnReport()
      ensures r.Ok? ==> w.trace == old(w.trace) + [AskedToStop(ports.admin)] + [SawExit(pid)]
      ensures r.Ok? ==> w.alive == {} && PhaseOf(w.trace) == Stopped(pid)
      ensures r.Ok? ==> w.withheld == old(w.withheld)
      ensures r.Err? ==> r.error in {Failed, Stalled} && w.alive == {} && PhaseOf(w.trace) == Over(pid)
      ensures r == Err(Failed) ==>
                && w.withheld == old(w.withheld) + [NoAnswer]
                && w.trace == old(w.trace) + [AskedToStop(ports.admin)] + [SawExit(pid)] + [Reaped(pid)]
      ensures r == Err(Stalled) ==>
                || w.withheld == old(w.withheld) + [NoAnswer]
                || (w.withheld == old(w.withheld) && w.now >= old(w.now) + within)
      ensures r == Err(Stalled) ==> w.trace == old(w.trace) + [AskedToStop(ports.admin)] + [Reaped(pid)]
    {
      hide PhaseOf, CountRuns, PidsOf, CountSpawns;
      w.Elapse();
      var answered := w.Grants(NoAnswer);
      Said(w.trace, AskedToStop(ports.admin));
      w.trace := w.trace + [AskedToStop(ports.admin)];
      if !answered {
        var exited := TryWait(w);
        StopNow(w);
        return Err(if exited then Failed else Stalled);
      }
      var exited, _ := WaitUntil(w, within);
      if !exited {
        StopNow(w);
        return Err(Stalled);
      }
      r := Ok(());
    }
  }

  /** Free ports and a checker on them, served: nothing is left alive of a start that fails. The checker
      before it, if there was one, is gone. A start fails for what was withheld from it, or else because its
      checker exited early or let its whole time pass. */
  method Started(w: World, readyWithin: nat) returns (r: Result<Listener>)
    requires w.Valid() && w.OwnReport()
    requires PhaseOf(w.trace).Idle? || (PhaseOf(w.trace).Gone? && PhaseOf(w.trace).spawns == 1)
    modifies w
    ensures w.Valid() && w.OwnReport() && w.runDirectory == old(w.runDirectory)
    ensures old(w.born) <= w.born <= old(w.born) + 1
    ensures CountRuns(w.trace) == CountRuns(old(w.trace)) && w.now >= old(w.now)
    ensures r.Ok? ==> PhaseOf(w.trace) == Serving(r.value.pid, r.value.ports)
    ensures r.Err? ==> w.alive == {} && Settled(w.trace)
    ensures r.Err? ==> r.error in {Missing, NotStarted, Failed, Stalled}
    ensures w.withheld == old(w.withheld)
              + if r == Err(Missing) then [NoPorts] else if r == Err(NotStarted) then [NoSpawn] else []
    ensures r == Err(Missing) || r == Err(NotStarted) ==> w.trace == old(w.trace)
    ensures r == Err(Failed) ==>
              PhaseOf(w.trace).Gone? && PhaseOf(w.trace).spawns == if PhaseOf(old(w.trace)).Idle? then 1 else 2
    ensures r == Err(Stalled) ==> PhaseOf(w.trace).Over? && w.now >= old(w.now) + readyWithin
  {
    hide PhaseOf, CountRuns, PidsOf, CountSpawns;
    w.Elapse();
    var ports: Ports :| true;
    var free := w.Grants(NoPorts);
    if !free {
      return Err(Missing);
    }
    var spawned := w.Grants(NoSpawn);
    if !spawned {
      return Err(NotStarted);
    }
    var listener := new Listener(w.born, ports);
    Said(w.trace, Spawned(w.born, ports));
    w.trace, w.alive, w.born := w.trace + [Spawned(w.born, ports)], w.alive + {w.born}, w.born + 1;
    var ready, _ := listener.AwaitReady(w, readyWithin);
    if ready.Err? {
      // The listener is dropped with the error.
      listener.StopNow(w);
      return Err(ready.error);
    }
    r := Ok(listener);
  }

  /** An early exit is followed by a second start, and any other failure is final. So a start has failed by
      exiting exactly when two checkers did, and one early exit is final only where no second could be had. */
  method Start(w: World, readyWithin: nat) returns (r: Result<Listener>)
    requires w.Valid() && w.OwnReport() && PhaseOf(w.trace).Idle?
    modifies w
    ensures w.Valid() && w.OwnReport() && w.runDirectory == old(w.runDirectory)
    ensures w.born <= old(w.born) + 2
    ensures CountRuns(w.trace) == CountRuns(old(w.trace)) && w.now >= old(w.now)
    ensures r.Ok? ==> PhaseOf(w.trace) == Serving(r.value.pid, r.value.ports)
    ensures r.Err? ==> w.alive == {} && Settled(w.trace)
    ensures r.Err? ==> r.error in {Missing, NotStarted, Failed, Stalled}
    ensures w.withheld == old(w.withheld)
              + if r == Err(Missing) then [NoPorts] else if r == Err(NotStarted) then [NoSpawn] else []
    ensures r == Err(Failed) <==> PhaseOf(w.trace).Gone? && PhaseOf(w.trace).spawns == 2
    ensures PhaseOf(w.trace).Gone? && PhaseOf(w.trace).spawns != 2 ==> r == Err(Missing) || r == Err(NotStarted)
    ensures r == Err(Stalled) ==> PhaseOf(w.trace).Over? && w.now >= old(w.now) + readyWithin
  {
    hide PhaseOf, CountRuns, PidsOf, CountSpawns;
    r := Started(w, readyWithin);
    if r == Err(Failed) {
      r := Started(w, readyWithin);
    }
  }

  function Least(a: nat, b: nat): nat { if a < b then a else b }

  /** What a step that failed so, with `withheld` of what it asked for, has to show for it. */
  ghost predicate Accounts(w: World, error: Error, withheld: seq<Fault>, waited: bool)
    reads w
  {
    match error
    case Io => withheld == [NoDirectory]
    case RunFailed => withheld == [BuildFailed] || withheld == [RunFails]
    case NotStarted => withheld == [NoSpawn]
    case Missing => withheld == [NoPorts] || (withheld == [] && w.report.None?)
    case Failed => withheld == [NoAnswer] || (withheld == [] && PhaseOf(w.trace).Gone? && PhaseOf(w.trace).spawns == 2)
    case Stalled => withheld == [NoAnswer] || (withheld == [] && waited)
  }

  /** From the start of a checker to the report it left, with a directory for the runs. */
  method Listened(w: World, runs: nat, readyWithin: nat, stopWithin: nat) returns (r: Result<Writer>)
    requires w.Valid() && w.OwnReport() && PhaseOf(w.trace).Idle? && CountRuns(w.trace) == 0 && w.runDirectory
    modifies w
    ensures w.Valid() && w.alive == {} && Settled(w.trace) && w.runDirectory == old(w.runDirectory)
    ensures w.born <= old(w.born) + 2
    ensures r.Ok? ==> r.value.Weaver? && r.value.pid in PidsOf(w.trace) && Event.Judged(r.value) in w.trace
    ensures r.Ok? ==> CountRuns(w.trace) == runs && w.report == Some(r.value) && w.withheld == old(w.withheld)
    ensures old(w.withheld) <= w.withheld
    ensures r.Err? ==> Accounts(w, r.error, w.withheld[|old(w.withheld)|..],
                                w.now >= old(w.now) + Least(readyWithin, stopWithin))
  {
    hide PhaseOf, CountRuns, PidsOf, CountSpawns;
    Empty(w.withheld);
    var started := Start(w, readyWithin);
    if started.Err? {
      return Err(started.error);
    }
    var listener := started.value;
    r := RunAgainst(w, listener, runs, stopWithin);
    listener.StopNow(w);
  }

  /** The whole step: whatever the checker, the build and the runs do, on every way out no checker is left
      alive, no run directory it made unless removing it was refused, and the trace is one the protocol
      allows. A report is judged only when a checker this step started wrote it; and with nothing withheld the
      step fails only for a report there is none of, for two early exits, or for a wait that was waited out. */
  method Judge(w: World, removable: bool, runs: nat, readyWithin: nat, stopWithin: nat) returns (r: Result<Writer>)
    requires w.Valid() && w.trace == []
    modifies w
    ensures w.Valid() && w.alive == {}
    ensures w.runDirectory ==> w.refused || (old(w.runDirectory) && r == Err(Io))
    ensures Allowed(w.trace) && Settled(w.trace)
    ensures w.born <= old(w.born) + 2
    ensures r.Ok? ==> r.value.Weaver? && r.value.pid in PidsOf(w.trace) && Event.Judged(r.value) in w.trace
    ensures r.Ok? ==> CountRuns(w.trace) == runs && w.report == Some(r.value) && w.withheld == old(w.withheld)
    ensures old(w.withheld) <= w.withheld
    ensures old(w.report).Some? && !removable ==>
              r == Err(Io) && w.trace == [] && w.withheld == old(w.withheld) && w.report == old(w.report)
    ensures (old(w.report).None? || removable) && r.Err? ==>
              Accounts(w, r.error, w.withheld[|old(w.withheld)|..],
                       w.now >= old(w.now) + Least(readyWithin, stopWithin))
  {
    if w.report.Some? {
      if !removable {
        return Err(Io);
      }
      w.report := None;
    }
    w.RemoveRunDirectory();
    var made := w.Grants(NoDirectory);
    if !made {
      return Err(Io);
    }
    w.runDirectory := true;
    w.Elapse();
    var built := w.Grants(BuildFailed);
    if !built {
      w.RemoveRunDirectory();
      return Err(RunFailed);
    }
    r := Listened(w, runs, readyWithin, stopWithin);
    w.RemoveRunDirectory();
  }

  /** The runs against a serving checker, the stop, and the report it left. */
  method RunAgainst(w: World, listener: Listener, runs: nat, stopWithin: nat) returns (r: Result<Writer>)
    requires w.Valid() && w.OwnReport() && PhaseOf(w.trace) == Serving(listener.pid, listener.ports) && w.runDirectory
    modifies w
    ensures w.Valid() && w.OwnReport() && w.born == old(w.born) && w.runDirectory
    ensures !PhaseOf(w.trace).Idle? && PhaseOf(w.trace).pid == listener.pid
    ensures r.Ok? ==> r.value.Weaver? && r.value.pid in PidsOf(w.trace) && Event.Judged(r.value) in w.trace
    ensures r.Ok? ==> CountRuns(w.trace) == CountRuns(old(w.trace)) + runs && w.report == Some(r.value)
    ensures r.Ok? ==> w.withheld == old(w.withheld)
    ensures r.Err? ==> r.error in {RunFailed, Missing, Failed, Stalled}
    ensures r == Err(RunFailed) ==> w.withheld == old(w.withheld) + [RunFails]
    ensures r == Err(Missing) ==> w.withheld == old(w.withheld) && w.report.None? && w.alive == {}
    ensures r == Err(Failed) ==> w.withheld == old(w.withheld) + [NoAnswer]
    ensures r == Err(Stalled) ==>
              || w.withheld == old(w.withheld) + [NoAnswer]
              || (w.withheld == old(w.withheld) && w.now >= old(w.now) + stopWithin)
    ensures r.Ok? ==> w.alive == {}
    ensures w.now >= old(w.now)
  {
    hide PhaseOf, CountRuns, PidsOf, CountSpawns;
    for i := 0 to runs
      invariant w.Valid() && w.OwnReport() && w.born == old(w.born)
      invariant w.runDirectory && w.withheld == old(w.withheld)
      invariant PhaseOf(w.trace) == Serving(listener.pid, listener.ports)
      invariant CountRuns(w.trace) == CountRuns(old(w.trace)) + i && w.now >= old(w.now)
    {
      Said(w.trace, Ran(listener.ports.grpc));
      w.trace := w.trace + [Ran(listener.ports.grpc)];
      w.Elapse();
      var passed := w.Grants(RunFails);
      if !passed {
        return Err(RunFailed);
      }
    }
    var stopped := listener.Stop(w, stopWithin);
    if stopped.Err? {
      return Err(stopped.error);
    }
    if w.report.None? {
      return Err(Missing);
    }
    var event := Event.Judged(w.report.value);
    Said(w.trace, event);
    w.trace := w.trace + [event];
    assert w.trace[|w.trace| - 1] == event;
    r := Ok(w.report.value);
  }
}
