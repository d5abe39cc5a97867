/** What the checker's report comes to: the findings in it, violations first, and the verdict. */
module LiveReport {
  import opened Text
  import opened Json
  import opened Order

  datatype Finding = Finding(id: string, level: string, message: string, signalType: string, signalName: Option<string>)

  /** Violations first, then what's ranked below them. */
  function Rank(finding: Finding): int {
    match finding.level
    case "violation" => 0
    case "improvement" => 1
    case "information" => 2
    case _ => 3
  }

  const RESULT := "live_check_result"

  // ----- the advice in a sample -----

  /** The pieces of advice on a value itself. */
  function OwnAdvice(v: Value): seq<Value> {
    match Get(v, RESULT)
    case None => []
    case Some(result) =>
      match Get(result, "all_advice")
      case Some(Arr(pieces)) => pieces
      case _ => []
  }

  /** The pieces of a value, its own ahead of those nested in it, in order. */
  function Pieces(v: Value): seq<Value>
    decreases v, 1, 0
  {
    match v
    case Obj(entries) => OwnAdvice(v) + PiecesIn(v, |entries|)
    case Arr(items) => PiecesIn(v, |items|)
    case _ => []
  }

  /** The pieces in the first `n` parts, but for the result the advice itself is in. */
  function PiecesIn(v: Value, n: nat): seq<Value>
    requires (v.Obj? && n <= |v.entries|) || (v.Arr? && n <= |v.items|)
    decreases v, 0, n
  {
    if n == 0 then []
    else if v.Arr? then PiecesIn(v, n - 1) + Pieces(v.items[n - 1])
    else PiecesIn(v, n - 1) + if v.entries[n - 1].0 == RESULT then [] else Pieces(v.entries[n - 1].1)
  }

  /** Every piece read, when each can be. `read` is how one is. */
  function ReadAll(pieces: seq<Value>, read: Value -> Option<Finding>): Option<seq<Finding>> {
    if pieces == [] then Some([])
    else
      match ReadAll(pieces[..|pieces| - 1], read)
      case None => None
      case Some(before) =>
        match read(pieces[|pieces| - 1])
        case None => None
        case Some(finding) => Some(before + [finding])
  }

  lemma {:induction false} ReadAllConcat(a: seq<Value>, b: seq<Value>, read: Value -> Option<Finding>)
    ensures ReadAll(a + b, read) ==
              if ReadAll(a, read).None? || ReadAll(b, read).None? then None
              else Some(ReadAll(a, read).value + ReadAll(b, read).value)
  {
    if b == [] {
      assert a + b == a;
      if ReadAll(a, read).Some? {
        Empty(ReadAll(a, read).value);
      }
    } else {
      var last := |b| - 1;
      var whole := a + b;
      assert whole[..|whole| - 1] == a + b[..last] && whole[|whole| - 1] == b[last];
      ReadAllConcat(a, b[..last], read);
      if ReadAll(a, read).Some? && ReadAll(b[..last], read).Some? && read(b[last]).Some? {
        Assoc(ReadAll(a, read).value, ReadAll(b[..last], read).value, [read(b[last]).value]);
      }
    }
  }

  /** One piece after the other, until one can't be read. */
  method ReadPieces(pieces: seq<Value>, read: Value -> Option<Finding>, found: seq<Finding>)
    returns (after: Option<seq<Finding>>)
    ensures after == match ReadAll(pieces, read) { case None => None case Some(more) => Some(found + more) }
  {
    var more: seq<Finding> := [];
    for i := 0 to |pieces|
      invariant ReadAll(pieces[..i], read) == Some(more)
    {
      assert pieces[..i + 1][..i] == pieces[..i];
      var one := read(pieces[i]);
      if one.None? {
        OneUnread(pieces, read, i);
        return None;
      }
      more := more + [one.value];
    }
    assert pieces[..|pieces|] == pieces;
    after := Some(found + more);
  }

  lemma OneUnread(pieces: seq<Value>, read: Value -> Option<Finding>, i: nat)
    requires i < |pieces| && read(pieces[i]).None?
    ensures ReadAll(pieces, read).None?
  {
    assert pieces[..i + 1][..i] == pieces[..i];
    assert pieces == pieces[..i + 1] + pieces[i + 1..];
    ReadAllConcat(pieces[..i + 1], pieces[i + 1..], read);
  }

  method Walk(v: Value, read: Value -> Option<Finding>, found: seq<Finding>) returns (after: Option<seq<Finding>>)
    ensures after == match ReadAll(Pieces(v), read) { case None => None case Some(more) => Some(found + more) }
    decreases v, 1
  {
    hide ReadAll, OwnAdvice, PiecesIn;
    match v {
      case Obj(entries) =>
        after := ReadPieces(OwnAdvice(v), read, found);
        ReadAllConcat(OwnAdvice(v), PiecesIn(v, |entries|), read);
        if after.None? {
          return;
        }
        var own := after.value;
        after := WalkParts(v, read, own);
        if after.Some? {
          Assoc(found, ReadAll(OwnAdvice(v), read).value, ReadAll(PiecesIn(v, |entries|), read).value);
        }
      case Arr(items) =>
        after := WalkParts(v, read, found);
      case _ =>
        after := Some(found);
        ReadNothing(read);
        Empty(found);
    }
  }

  /** The parts of a table, but for a result, or of an array. */
  method WalkParts(v: Value, read: Value -> Option<Finding>, found: seq<Finding>) returns (after: Option<seq<Finding>>)
    requires v.Obj? || v.Arr?
    ensures var n := if v.Obj? then |v.entries| else |v.items|;
            after == match ReadAll(PiecesIn(v, n), read) { case None => None case Some(more) => Some(found + more) }
    decreases v, 0
  {
    hide ReadAll, Pieces, PiecesIn;
    var n := if v.Obj? then |v.entries| else |v.items|;
    after := Some(found);
    NoPieceYet(v);
    ReadNothing(read);
    Empty(found);
    for i := 0 to n
      invariant ReadAll(PiecesIn(v, i), read).Some?
      invariant after == Some(found + ReadAll(PiecesIn(v, i), read).value)
    {
      OnePartMore(v, i);
      if v.Obj? && v.entries[i].0 == RESULT {
        continue;
      }
      var part := if v.Obj? then v.entries[i].1 else v.items[i];
      ReadAllConcat(PiecesIn(v, i), Pieces(part), read);
      Unreadable(v, i + 1, n, read);
      var before := after.value;
      after := Walk(part, read, before);
      if after.None? {
        return;
      }
      Assoc(found, ReadAll(PiecesIn(v, i), read).value, ReadAll(Pieces(part), read).value);
    }
  }

  lemma NoPieceYet(v: Value)
    requires v.Obj? || v.Arr?
    ensures PiecesIn(v, 0) == []
  {}

  /** The pieces of one part more: none of a result, and otherwise all of the part's. */
  lemma OnePartMore(v: Value, i: nat)
    requires (v.Obj? && i < |v.entries|) || (v.Arr? && i < |v.items|)
    ensures PiecesIn(v, i + 1) ==
              if v.Obj? && v.entries[i].0 == RESULT then PiecesIn(v, i)
              else PiecesIn(v, i) + Pieces(if v.Obj? then v.entries[i].1 else v.items[i])
  {
    hide Pieces;
    Empty(PiecesIn(v, i));
  }

  lemma ReadNothing(read: Value -> Option<Finding>)
    ensures ReadAll([], read) == Some([])
  {}

  /** A piece that can't be read is never got past. */
  lemma {:induction false} Unreadable(v: Value, n: nat, m: nat, read: Value -> Option<Finding>)
    requires (v.Obj? && m <= |v.entries|) || (v.Arr? && m <= |v.items|)
    requires n <= m
    ensures ReadAll(PiecesIn(v, n), read).None? ==> ReadAll(PiecesIn(v, m), read).None?
    decreases m
  {
    hide ReadAll, Pieces;
    if n < m {
      Unreadable(v, n, m - 1, read);
      var more := if v.Arr? then Pieces(v.items[m - 1])
                  else if v.entries[m - 1].0 == RESULT then [] else Pieces(v.entries[m - 1].1);
      ReadAllConcat(PiecesIn(v, m - 1), more, read);
    }
  }

  /** Every finding of the samples by rank, equal ranks in the order they were met; none when a piece of
      advice can't be read. */
  method Findings(samples: seq<Value>, read: Value -> Option<Finding>) returns (found: Option<seq<Finding>>)
    ensures match ReadAll(Pieces(Arr(samples)), read)
            case None => found.None?
            case Some(all) =>
              && found.Some? && IsRanked(found.value, Rank) && multiset(found.value) == multiset(all)
              && forall r :: OfRank(found.value, Rank, r) == OfRank(all, Rank, r)
  {
    var all := Some([]);
    ghost var whole := Arr(samples);
    ReadNothing(read);
    hide ReadAll;
    for i := 0 to |samples|
      invariant ReadAll(PiecesIn(whole, i), read) == all && all.Some?
    {
      ReadAllConcat(PiecesIn(whole, i), Pieces(samples[i]), read);
      Unreadable(whole, i + 1, |samples|, read);
      all := Walk(samples[i], read, all.value);
      if all.None? {
        return None;
      }
    }
    SortedByHolds(all.value, Rank);
    forall r {
      SortedByIsStable(all.value, Rank, r);
    }
    found := Some(SortedBy(all.value, Rank));
  }

  // ----- where advice is -----

  /** `w` stands in `v` at `path`, which doesn't pass through the result the advice is in. */
  ghost predicate LeadsTo(v: Value, path: seq<Step>, w: Value)
    decreases |path|
  {
    if path == [] then v == w
    else
      match path[0]
      case Index(i) => v.Arr? && i < |v.items| && LeadsTo(v.items[i], path[1..], w)
      case Key(key) => v.Obj? && key != "live_check_result" && exists i | 0 <= i < |v.entries| ::
        v.entries[i].0 == key && LeadsTo(v.entries[i].1, path[1..], w)
  }

  /** Advice on a value somewhere in `v`. */
  ghost predicate IsAdvice(v: Value, piece: Value) {
    exists path, w :: LeadsTo(v, path, w) && IsOn(w, piece)
  }

  /** A piece in the list of all advice in the result that's on a value. */
  ghost predicate IsOn(w: Value, piece: Value) {
    && Get(w, "live_check_result").Some?
    && Get(Get(w, "live_check_result").value, "all_advice").Some?
    && Get(Get(w, "live_check_result").value, "all_advice").value.Arr?
    && piece in Get(Get(w, "live_check_result").value, "all_advice").value.items
  }

  lemma OwnIsOn(w: Value, piece: Value)
    ensures piece in OwnAdvice(w) <==> IsOn(w, piece)
  {}

  /** A piece is found exactly when it's advice on a value somewhere in the sample. */
  lemma PiecesAreTheAdvice(v: Value, piece: Value)
    ensures piece in Pieces(v) <==> IsAdvice(v, piece)
  {
    hide OwnAdvice, IsOn;
    if piece in Pieces(v) {
      var path, w := PieceHasAPath(v, piece);
      OwnIsOn(w, piece);
    }
    if path, w :| LeadsTo(v, path, w) && IsOn(w, piece) {
      OwnIsOn(w, piece);
      AdviceIsFound(v, path, w, piece);
    }
  }

  lemma {:induction false} PieceHasAPath(v: Value, piece: Value) returns (path: seq<Step>, w: Value)
    requires piece in Pieces(v)
    ensures LeadsTo(v, path, w) && piece in OwnAdvice(w)
    decreases v
  {
    hide OwnAdvice;
    if v.Obj? && piece in OwnAdvice(v) {
      path, w := [], v;
    } else {
      var i := PieceIsInAPart(v, if v.Obj? then |v.entries| else |v.items|, piece);
      if v.Obj? {
        path, w := PieceHasAPath(v.entries[i].1, piece);
        path := [Key(v.entries[i].0)] + path;
      } else {
        path, w := PieceHasAPath(v.items[i], piece);
        path := [Index(i)] + path;
      }
    }
  }

  lemma {:induction false} PieceIsInAPart(v: Value, n: nat, piece: Value) returns (i: nat)
    requires (v.Obj? && n <= |v.entries|) || (v.Arr? && n <= |v.items|)
    requires piece in PiecesIn(v, n)
    ensures i < n
    ensures v.Obj? ==> v.entries[i].0 != RESULT && piece in Pieces(v.entries[i].1)
    ensures v.Arr? ==> piece in Pieces(v.items[i])
  {
    hide Pieces;
    if piece in PiecesIn(v, n - 1) {
      i := PieceIsInAPart(v, n - 1, piece);
    } else {
      i := n - 1;
    }
  }

  lemma {:induction false} AdviceIsFound(v: Value, path: seq<Step>, w: Value, piece: Value)
    requires LeadsTo(v, path, w) && piece in OwnAdvice(w)
    ensures piece in Pieces(v)
    decreases |path|
  {
    if path != [] {
      match path[0]
      case Index(i) =>
        AdviceIsFound(v.items[i], path[1..], w, piece);
        PartIsWithin(v, i, |v.items|, piece);
      case Key(key) =>
        var i :| 0 <= i < |v.entries| && v.entries[i].0 == key && LeadsTo(v.entries[i].1, path[1..], w);
        AdviceIsFound(v.entries[i].1, path[1..], w, piece);
        PartIsWithin(v, i, |v.entries|, piece);
    }
  }

  lemma {:induction false} PartIsWithin(v: Value, i: nat, n: nat, piece: Value)
    requires (v.Obj? && n <= |v.entries|) || (v.Arr? && n <= |v.items|)
    requires i < n
    requires v.Obj? ==> v.entries[i].0 != RESULT && piece in Pieces(v.entries[i].1)
    requires v.Arr? ==> piece in Pieces(v.items[i])
    ensures piece in PiecesIn(v, n)
  {
    hide Pieces;
    if i < n - 1 {
      PartIsWithin(v, i, n - 1, piece);
    }
  }

  // ----- the verdict -----

  const WIDE_EVENT := "lablet.run"
  const EXCEPTION_EVENT := "gen_ai.client.operation.exception"
  const SPAN_EVENT := "span_event"

  datatype Statistics = Statistics(entities: map<string, nat>, levels: map<string, nat>, events: map<string, nat>)

  /** What was run: how many runs, and whether one of them was tried again. */
  datatype Emitted = Emitted(runs: nat, retried: bool)

  datatype Verdict = Violations(findings: seq<Finding>) | SawTooLittle | RetryUnseen | Good

  function CountIn(counts: map<string, nat>, key: string): nat { if key in counts then counts[key] else 0 }

  /** Whether the report's counts are as high as the runs alone make them: per run an event and two spans,
      and one log record and one span event more where a run was tried again. */
  predicate SawEnough(s: Statistics, emitted: Emitted) {
    && CountIn(s.events, WIDE_EVENT) >= emitted.runs
    && CountIn(s.entities, "span") >= 2 * emitted.runs
    && (emitted.retried ==> CountIn(s.events, EXCEPTION_EVENT) > 0 && CountIn(s.entities, SPAN_EVENT) > 0)
  }

  /** The step passes exactly when there's no violation and the report saw enough; with a violation every
      finding is told. */
  method Judge(s: Statistics, found: seq<Finding>, emitted: Emitted) returns (verdict: Verdict)
    ensures verdict.Good? <==> CountIn(s.levels, "violation") == 0 && SawEnough(s, emitted)
    ensures CountIn(s.levels, "violation") > 0 <==> verdict == Violations(found)
    ensures verdict.SawTooLittle? <==>
              CountIn(s.levels, "violation") == 0 && !SawEnough(s, emitted.(retried := false))
  {
    if CountIn(s.levels, "violation") > 0 {
      return Violations(found);
    }
    var spans, wide := CountIn(s.entities, "span"), CountIn(s.events, WIDE_EVENT);
    if wide < emitted.runs || spans < 2 * emitted.runs {
      return SawTooLittle;
    }
    var exceptions, spanEvents := CountIn(s.events, EXCEPTION_EVENT), CountIn(s.entities, SPAN_EVENT);
    if emitted.retried && (exceptions == 0 || spanEvents == 0) {
      return RetryUnseen;
    }
    verdict := Good;
  }

  // ----- the report judged -----

  datatype Report = Report(samples: seq<Value>, statistics: Statistics)

  /** A piece of advice that the report holds somewhere in its samples. */
  ghost predicate Advises(report: Report, piece: Value) { IsAdvice(Arr(report.samples), piece) }

  lemma {:induction false} ReadAllHolds(pieces: seq<Value>, read: Value -> Option<Finding>)
    ensures ReadAll(pieces, read).None? <==> exists piece | piece in pieces :: read(piece).None?
    ensures ReadAll(pieces, read).Some? ==>
              forall f :: f in ReadAll(pieces, read).value <==> exists piece | piece in pieces :: read(piece) == Some(f)
  {
    if pieces != [] {
      var init, last := pieces[..|pieces| - 1], pieces[|pieces| - 1];
      ReadAllHolds(init, read);
      assert forall piece :: piece in pieces <==> piece in init || piece == last;
    }
  }

  /** What's read of a report's pieces, in terms of where advice stands. */
  lemma AdviceIsRead(report: Report, read: Value -> Option<Finding>)
    ensures var all := ReadAll(Pieces(Arr(report.samples)), read);
            && (all.None? <==> exists piece | Advises(report, piece) :: read(piece).None?)
            && (all.Some? ==>
                  forall f :: f in all.value <==> exists piece | Advises(report, piece) :: read(piece) == Some(f))
  {
    hide ReadAll, Pieces, IsAdvice;
    var pieces := Pieces(Arr(report.samples));
    forall piece ensures piece in pieces <==> Advises(report, piece) {
      PiecesAreTheAdvice(Arr(report.samples), piece);
    }
    ReadAllHolds(pieces, read);
  }

  /** What's told first: violations, then improvements, then information, then whatever else there is. */
  predicate IsAhead(a: string, b: string) {
    || (a == "violation" && b != "violation")
    || (a == "improvement" && b != "violation" && b != "improvement")
    || (a == "information" && b != "violation" && b != "improvement" && b != "information")
  }

  lemma RanksAre(a: Finding, b: Finding)
    ensures Rank(a) < Rank(b) <==> IsAhead(a.level, b.level)
  {
    assert "violation"[0] == 'v' && "improvement"[1] == 'm' && "information"[1] == 'n' && "information"[0] == 'i';
  }

  lemma RankedIsAhead(found: seq<Finding>)
    requires IsRanked(found, Rank)
    ensures forall i, j | 0 <= i < j < |found| :: !IsAhead(found[j].level, found[i].level)
  {
    forall i, j | 0 <= i < j < |found| ensures !IsAhead(found[j].level, found[i].level) {
      RanksAre(found[j], found[i]);
    }
  }

  ghost predicate HasViolations(s: Statistics) { "violation" in s.levels && s.levels["violation"] > 0 }

  /** Each run shows as an event and two spans at the least, and a retried one as a record and a span event. */
  ghost predicate RunsShow(s: Statistics, emitted: Emitted) {
    && emitted.runs <= (if "lablet.run" in s.events then s.events["lablet.run"] else 0)
    && emitted.runs + emitted.runs <= (if "span" in s.entities then s.entities["span"] else 0)
    && (emitted.retried ==>
          && "gen_ai.client.operation.exception" in s.events && s.events["gen_ai.client.operation.exception"] >= 1
          && "span_event" in s.entities && s.entities["span_event"] >= 1)
  }

  /** The findings told are those of every piece of advice, wherever it stands, violations first; there are none
      to tell exactly when a piece can't be read. The step passes exactly when they can be, no violation was
      counted and the report saw enough. */
  method JudgeReport(report: Report, read: Value -> Option<Finding>, emitted: Emitted)
    returns (verdict: Option<Verdict>)
    ensures verdict.None? <==> exists piece | Advises(report, piece) :: read(piece).None?
    ensures verdict == Some(Good) <==>
              && verdict.Some? && !HasViolations(report.statistics) && RunsShow(report.statistics, emitted)
    ensures verdict.Some? && !HasViolations(report.statistics) ==>
              (verdict.value.SawTooLittle? <==> !RunsShow(report.statistics, emitted.(retried := false)))
    ensures verdict.Some? && HasViolations(report.statistics) ==>
              && verdict.value.Violations?
              && (forall f :: f in verdict.value.findings <==>
                                exists piece | Advises(report, piece) :: read(piece) == Some(f))
              && forall i, j | 0 <= i < j < |verdict.value.findings| ::
                   !IsAhead(verdict.value.findings[j].level, verdict.value.findings[i].level)
  {
    hide ReadAll, OfRank, IsRanked, Advises, Pieces;
    AdviceIsRead(report, read);
    var found := Findings(report.samples, read);
    if found.None? {
      return None;
    }
    RankedIsAhead(found.value);
    SameFindings(found.value, ReadAll(Pieces(Arr(report.samples)), read).value);
    var judged := Judge(report.statistics, found.value, emitted);
    verdict := Some(judged);
  }

  lemma SameFindings(a: seq<Finding>, b: seq<Finding>)
    requires multiset(a) == multiset(b)
    ensures forall f :: f in a <==> f in b
  {
    forall f ensures f in a <==> f in b {
      assert f in multiset(a) <==> f in multiset(b);
    }
  }
}
