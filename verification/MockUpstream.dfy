/** A stand-in for an API that plays one sequence of answers: the sequence's grammar, and what each request
    gets. */
module MockUpstream {
  import opened Text

  datatype Step = Step(status: nat, retryAfter: Option<nat>, shouldRetry: Option<bool>, promptTooLong: bool)

  datatype Flag = RetryAfter(seconds: nat) | ShouldRetry(value: bool) | PromptTooLong

  const THEN := "-then-"

  // ----- reading -----

  /** The flags a text is made of, one after the other. */
  function ReadFlags(s: string): Option<seq<Flag>>
    decreases |s|
  {
    if s == "" then Some([])
    else
      match ReadFlag(s)
      case None => None
      case Some((flag, rest)) =>
        match ReadFlags(rest)
        case None => None
        case Some(more) => Some([flag] + more)
  }

  function ReadFlag(s: string): (r: Option<(Flag, string)>)
    ensures r.Some? ==> |r.value.1| < |s|
  {
    if "-retry-after-" <= s then
      var (digits, rest) := SpanDigits(s[13..]);
      assert |digits| + |rest| == |s| - 13;
      if digits == "" then None else Some((RetryAfter(Read(digits)), rest))
    else if "-x-should-retry-true" <= s then Some((ShouldRetry(true), s[20..]))
    else if "-x-should-retry-false" <= s then Some((ShouldRetry(false), s[21..]))
    else if "-prompt-too-long" <= s then Some((PromptTooLong, s[16..]))
    else None
  }

  /** The first flag of each kind decides. */
  function FirstRetryAfter(flags: seq<Flag>): Option<nat> {
    if flags == [] then None
    else if flags[0].RetryAfter? then Some(flags[0].seconds)
    else FirstRetryAfter(flags[1..])
  }

  function FirstShouldRetry(flags: seq<Flag>): Option<bool> {
    if flags == [] then None
    else if flags[0].ShouldRetry? then Some(flags[0].value)
    else FirstShouldRetry(flags[1..])
  }

  /** An `x` and a count of one digit or more, when they're there. */
  function ReadCount(s: string): (Option<nat>, string) {
    if "x" <= s then
      var (digits, rest) := SpanDigits(s[1..]);
      if digits == "" then (None, s) else (Some(Read(digits)), rest)
    else (None, s)
  }

  /** A text with each of its characters read by `plain`, which reads a decimal digit of any script as the
      ASCII digit of its value and leaves everything else. */
  function InAscii(s: string, plain: char -> char): string { seq(|s|, i requires 0 <= i < |s| => plain(s[i])) }

  ghost predicate KeepsAscii(plain: char -> char) { forall c | c < '\U{80}' :: plain(c) == c }

  /** One step and how often it's played. */
  function ReadStep(part: string, plain: char -> char): Option<(Step, nat)> {
    ReadAsciiStep(InAscii(part, plain))
  }

  /** A newline at the very end is passed over, as `$` does. */
  function ReadAsciiStep(part: string): Option<(Step, nat)> {
    var core := if part != "" && part[|part| - 1] == '\n' then part[..|part| - 1] else part;
    if |core| < 3 || !IsNumber(core[..3]) then None
    else
      var (count, flags) := ReadCount(core[3..]);
      match ReadFlags(flags)
      case None => None
      case Some(read) =>
        Some((Step(Read(core[..3]), FirstRetryAfter(read), FirstShouldRetry(read), PromptTooLong in read),
              match count case Some(n) => n case None => 1))
  }

  /** `split` at every `sep`. */
  function SplitAll(s: string, sep: string): (parts: seq<string>)
    requires sep != ""
    ensures parts != []
    decreases |s|
  {
    match Find(s, sep)
    case None => [s]
    case Some(at) => [s[..at]] + SplitAll(s[at + |sep|..], sep)
  }

  function Repeated(step: Step, count: nat): seq<Step> { seq(count, _ => step) }

  /** The steps of the parts, each as often as it says, when every part is one. */
  function StepsOf(parts: seq<string>, plain: char -> char): Option<seq<Step>> {
    if parts == [] then Some([])
    else
      var last := |parts| - 1;
      match (StepsOf(parts[..last], plain), ReadStep(parts[last], plain))
      case (Some(before), Some((step, count))) => Some(before + Repeated(step, count))
      case _ => None
  }

  method ParseSequence(text: string, plain: char -> char) returns (steps: Option<seq<Step>>)
    ensures steps == StepsOf(SplitAll(text, THEN), plain)
  {
    hide ReadStep, SplitAll;
    var parts := SplitAll(text, THEN);
    var found: seq<Step> := [];
    for i := 0 to |parts|
      invariant StepsOf(parts[..i], plain) == Some(found)
    {
      assert parts[..i + 1][..i] == parts[..i];
      var read := ReadStep(parts[i], plain);
      if read.None? {
        OnePartFails(parts, plain, i);
        return None;
      }
      found := found + Repeated(read.value.0, read.value.1);
    }
    assert parts[..|parts|] == parts;
    steps := Some(found);
  }

  lemma {:induction false} OnePartFails(parts: seq<string>, plain: char -> char, i: nat)
    requires i < |parts| && ReadStep(parts[i], plain).None?
    ensures StepsOf(parts, plain).None?
  {
    hide ReadStep;
    if i < |parts| - 1 {
      OnePartFails(parts[..|parts| - 1], plain, i);
    }
  }

  // ----- printing -----

  datatype CountedStep = CountedStep(step: Step, count: nat)

  predicate IsStatus(status: nat) { status < 1000 }

  function PrintStatus(status: nat): string
    requires IsStatus(status)
  {
    [DigitOf(status / 100), DigitOf(status / 10 % 10), DigitOf(status % 10)]
  }

  function FlagsOf(step: Step): seq<Flag> {
    (if step.retryAfter.Some? then [RetryAfter(step.retryAfter.value)] else [])
    + (if step.shouldRetry.Some? then [ShouldRetry(step.shouldRetry.value)] else [])
    + (if step.promptTooLong then [PromptTooLong] else [])
  }

  function PrintFlag(flag: Flag): string {
    match flag
    case RetryAfter(seconds) => "-retry-after-" + Show(seconds)
    case ShouldRetry(value) => if value then "-x-should-retry-true" else "-x-should-retry-false"
    case PromptTooLong => "-prompt-too-long"
  }

  function PrintFlags(flags: seq<Flag>): string {
    if flags == [] then "" else PrintFlag(flags[0]) + PrintFlags(flags[1..])
  }

  function PrintCount(count: nat): string { if count == 1 then "" else "x" + Show(count) }

  function PrintStep(c: CountedStep): string
    requires IsStatus(c.step.status)
  {
    PrintStatus(c.step.status) + PrintCount(c.count) + PrintFlags(FlagsOf(c.step))
  }

  predicate Printable(cs: seq<CountedStep>) { forall c | c in cs :: IsStatus(c.step.status) }

  function Print(cs: seq<CountedStep>): string
    requires cs != [] && Printable(cs)
  {
    if |cs| == 1 then PrintStep(cs[0]) else PrintStep(cs[0]) + THEN + Print(cs[1..])
  }

  function Expanded(cs: seq<CountedStep>): seq<Step> {
    if cs == [] then [] else Repeated(cs[0].step, cs[0].count) + Expanded(cs[1..])
  }

  function Total(cs: seq<CountedStep>): nat {
    if cs == [] then 0 else cs[0].count + Total(cs[1..])
  }

  // ----- a printed step reads back -----

  lemma RetryAfterReadsBack(seconds: nat, rest: string)
    requires rest == "" || !IsDigit(rest[0])
    ensures ReadFlag("-retry-after-" + Show(seconds) + rest) == Some((RetryAfter(seconds), rest))
  {
    hide SpanDigits, Show, Read;
    Assoc("-retry-after-", Show(seconds), rest);
    Seam("-retry-after-", Show(seconds) + rest);
    SpanDigitsIs(Show(seconds), rest);
    ReadShow(seconds);
  }

  lemma ShouldRetryReadsBack(value: bool, rest: string)
    ensures ReadFlag(PrintFlag(ShouldRetry(value)) + rest) == Some((ShouldRetry(value), rest))
  {
    var s := PrintFlag(ShouldRetry(value)) + rest;
    Seam(PrintFlag(ShouldRetry(value)), rest);
    if value {
      assert s[..20] == "-x-should-retry-true" && s[1] == 'x';
    } else {
      assert s[..21] == "-x-should-retry-false" && s[1] == 'x' && s[16] == 'f';
    }
  }

  lemma PromptTooLongReadsBack(rest: string)
    ensures ReadFlag("-prompt-too-long" + rest) == Some((PromptTooLong, rest))
  {
    Seam("-prompt-too-long", rest);
    assert ("-prompt-too-long" + rest)[1] == 'p';
  }

  lemma FlagReadsBack(flag: Flag, rest: string)
    requires rest == "" || !IsDigit(rest[0])
    ensures ReadFlag(PrintFlag(flag) + rest) == Some((flag, rest))
  {
    hide ReadFlag, Show;
    match flag
    case RetryAfter(seconds) => RetryAfterReadsBack(seconds, rest);
    case ShouldRetry(value) => ShouldRetryReadsBack(value, rest);
    case PromptTooLong => PromptTooLongReadsBack(rest);
  }

  lemma {:induction false} FlagsReadBack(flags: seq<Flag>)
    ensures ReadFlags(PrintFlags(flags)) == Some(flags)
    ensures PrintFlags(flags) == "" || PrintFlags(flags)[0] == '-'
  {
    hide ReadFlag;
    if flags != [] {
      FlagsReadBack(flags[1..]);
      FlagReadsBack(flags[0], PrintFlags(flags[1..]));
      assert PrintFlag(flags[0]) != "" && PrintFlag(flags[0])[0] == '-';
      assert [flags[0]] + flags[1..] == flags;
    }
  }

  lemma FlagsDecide(step: Step)
    ensures FirstRetryAfter(FlagsOf(step)) == step.retryAfter
    ensures FirstShouldRetry(FlagsOf(step)) == step.shouldRetry
    ensures PromptTooLong in FlagsOf(step) <==> step.promptTooLong
  {
    var prompt := if step.promptTooLong then [PromptTooLong] else [];
    var should := if step.shouldRetry.Some? then [ShouldRetry(step.shouldRetry.value)] else [];
    assert FirstRetryAfter(prompt) == None && FirstShouldRetry(prompt) == None;
    assert (should + prompt)[|should|..] == prompt;
    assert FirstShouldRetry(should + prompt) == step.shouldRetry && FirstRetryAfter(should + prompt) == None by {
      if should != [] {
        assert (should + prompt)[1..] == prompt;
      } else {
        assert should + prompt == prompt;
      }
    }
    var flags := FlagsOf(step);
    if step.retryAfter.Some? {
      assert flags == [RetryAfter(step.retryAfter.value)] + (should + prompt);
      assert flags[1..] == should + prompt;
    } else {
      assert flags == should + prompt;
    }
  }

  lemma StatusReadsBack(status: nat)
    requires IsStatus(status)
    ensures IsNumber(PrintStatus(status)) && Read(PrintStatus(status)) == status
  {
    var s := PrintStatus(status);
    assert s[..2][..1] == s[..1] && s[..1][..0] == [];
    assert Read(s[..1]) == status / 100;
    assert Read(s[..2]) == status / 100 * 10 + status / 10 % 10;
    assert status / 10 == status / 100 * 10 + status / 10 % 10;
  }

  lemma CountReadsBack(count: nat, rest: string)
    requires rest == "" || rest[0] == '-'
    ensures ReadCount(PrintCount(count) + rest) == (if count == 1 then None else Some(count), rest)
  {
    if count == 1 {
      Empty(rest);
    } else {
      Assoc("x", Show(count), rest);
      Seam("x", Show(count) + rest);
      SpanDigitsIs(Show(count), rest);
      ReadShow(count);
    }
  }

  lemma StepReadsBack(c: CountedStep, plain: char -> char)
    requires IsStatus(c.step.status) && KeepsAscii(plain)
    ensures ReadStep(PrintStep(c), plain) == Some((c.step, c.count))
  {
    hide ReadAsciiStep, PrintStep;
    PrintedIsPlain(c);
    PlainIsKept(PrintStep(c), plain);
    AsciiStepReadsBack(c);
  }

  lemma AsciiStepReadsBack(c: CountedStep)
    requires IsStatus(c.step.status)
    ensures ReadAsciiStep(PrintStep(c)) == Some((c.step, c.count))
  {
    hide ReadFlags, ReadCount, FlagsOf, PrintFlags, PrintCount, Read;
    var status, count, flags := PrintStatus(c.step.status), PrintCount(c.count), PrintFlags(FlagsOf(c.step));
    var s := PrintStep(c);
    StatusReadsBack(c.step.status);
    FlagsReadBack(FlagsOf(c.step));
    FlagsDecide(c.step);
    CountReadsBack(c.count, flags);
    Assoc(status, count, flags);
    Seam(status, count + flags);
    PrintedIsPlain(c);
    assert s[|s| - 1] in s;
  }

  /** Dashes, digits and letters, as a printed step is made of. */
  ghost predicate IsPlain(s: string) { forall c | c in s :: '-' <= c <= 'z' }

  lemma PlainIsKept(s: string, plain: char -> char)
    requires IsPlain(s) && KeepsAscii(plain)
    ensures InAscii(s, plain) == s
  {
    forall i | 0 <= i < |s| ensures InAscii(s, plain)[i] == s[i] {
      assert s[i] in s;
    }
  }

  lemma NumberIsPlain(s: string)
    requires IsNumber(s)
    ensures IsPlain(s)
  {}

  lemma {:induction false} FlagsArePlain(flags: seq<Flag>)
    ensures IsPlain(PrintFlags(flags))
  {
    if flags != [] {
      FlagsArePlain(flags[1..]);
      FlagIsPlain(flags[0]);
    }
  }

  lemma FlagIsPlain(flag: Flag)
    ensures IsPlain(PrintFlag(flag))
  {
    match flag
    case RetryAfter(seconds) => NumberIsPlain(Show(seconds));
    case _ =>
  }

  lemma PrintedIsPlain(c: CountedStep)
    requires IsStatus(c.step.status)
    ensures IsPlain(PrintStep(c))
  {
    NumberIsPlain(Show(c.count));
    StatusReadsBack(c.step.status);
    NumberIsPlain(PrintStatus(c.step.status));
    FlagsArePlain(FlagsOf(c.step));
  }

  // ----- a printed sequence splits into its steps -----

  /** A `-` here begins no `-th`, and isn't at the end, where it could begin one with what follows. */
  predicate QuietAt(p: string, i: nat)
    requires i < |p|
  {
    p[i] == '-' ==> i + 1 < |p| && (p[i + 1] == 't' ==> i + 2 < |p| && p[i + 2] != 'h')
  }

  predicate Quiet(p: string) { forall i: nat | i < |p| :: QuietAt(p, i) }

  lemma QuietConcat(a: string, b: string)
    requires Quiet(a) && Quiet(b)
    ensures Quiet(a + b)
  {
    var s := a + b;
    forall i: nat | i < |s| ensures QuietAt(s, i) {
      if i < |a| {
        assert QuietAt(a, i);
      } else {
        assert QuietAt(b, i - |a|);
      }
    }
  }

  lemma RetryAfterIsQuiet(digits: string)
    requires IsNumber(digits)
    ensures Quiet("-retry-after-" + digits)
  {
    var s := "-retry-after-" + digits;
    assert digits[0] in digits && s[13] == digits[0];
    forall i | 13 <= i < |s| ensures s[i] != '-' {
      assert s[i] == digits[i - 13] && digits[i - 13] in digits;
    }
  }

  lemma FlagIsQuiet(flag: Flag)
    ensures Quiet(PrintFlag(flag))
  {
    match flag
    case RetryAfter(seconds) =>
      RetryAfterIsQuiet(Show(seconds));
    case _ =>
  }

  lemma {:induction false} FlagsAreQuiet(flags: seq<Flag>)
    ensures Quiet(PrintFlags(flags))
  {
    hide Quiet;
    if flags == [] {
      QuietNothing();
    } else {
      FlagsAreQuiet(flags[1..]);
      FlagIsQuiet(flags[0]);
      QuietConcat(PrintFlag(flags[0]), PrintFlags(flags[1..]));
    }
  }

  lemma QuietNothing()
    ensures Quiet("")
  {}

  lemma QuietNumber(s: string)
    requires '-' !in s
    ensures Quiet(s)
  {}

  lemma StepIsQuiet(c: CountedStep)
    requires IsStatus(c.step.status)
    ensures Quiet(PrintStep(c))
  {
    hide Quiet;
    StatusReadsBack(c.step.status);
    NumberHoldsNo(PrintStatus(c.step.status), '-');
    QuietNumber(PrintStatus(c.step.status));
    NumberHoldsNo(Show(c.count), '-');
    QuietNumber(PrintCount(c.count));
    QuietConcat(PrintStatus(c.step.status), PrintCount(c.count));
    FlagsAreQuiet(FlagsOf(c.step));
    QuietConcat(PrintStatus(c.step.status) + PrintCount(c.count), PrintFlags(FlagsOf(c.step)));
  }

  lemma SplitsAfterQuiet(p: string, rest: string)
    requires Quiet(p)
    ensures SplitAll(p + THEN + rest, THEN) == [p] + SplitAll(rest, THEN)
  {
    var s := p + THEN + rest;
    assert s[|p|..|p| + 6] == THEN && s[..|p|] == p && s[|p| + 6..] == rest;
    forall j: nat | j < |p| ensures !OccursAt(s, THEN, j) {
      assert QuietAt(p, j) && p[j] == s[j];
      if OccursAt(s, THEN, j) {
        StartsThen(s, j);
      }
    }
    FindIs(s, THEN, |p|);
  }

  lemma StartsThen(s: string, j: nat)
    requires OccursAt(s, THEN, j)
    ensures s[j] == '-' && s[j + 1] == 't' && s[j + 2] == 'h'
  {
    var t := s[j..j + 6];
    assert t[0] == s[j] && t[1] == s[j + 1] && t[2] == s[j + 2];
  }

  lemma QuietIsOnePart(p: string)
    requires Quiet(p)
    ensures SplitAll(p, THEN) == [p]
  {
    forall j: nat ensures !OccursAt(p, THEN, j) {
      assert j < |p| ==> QuietAt(p, j);
      if OccursAt(p, THEN, j) {
        StartsThen(p, j);
      }
    }
  }

  ghost function Printed(cs: seq<CountedStep>): seq<string>
    requires Printable(cs)
  {
    if cs == [] then [] else [PrintStep(cs[0])] + Printed(cs[1..])
  }

  lemma {:induction false} PrintSplits(cs: seq<CountedStep>)
    requires cs != [] && Printable(cs)
    ensures SplitAll(Print(cs), THEN) == Printed(cs)
  {
    hide SplitAll, PrintStep, Quiet;
    StepIsQuiet(cs[0]);
    if |cs| == 1 {
      QuietIsOnePart(PrintStep(cs[0]));
      assert cs[1..] == [];
    } else {
      PrintSplits(cs[1..]);
      SplitsAfterQuiet(PrintStep(cs[0]), Print(cs[1..]));
    }
  }

  lemma {:induction false} StepsOfConcat(a: seq<string>, b: seq<string>, plain: char -> char)
    requires StepsOf(a, plain).Some? && StepsOf(b, plain).Some?
    ensures StepsOf(a + b, plain) == Some(StepsOf(a, plain).value + StepsOf(b, plain).value)
  {
    hide ReadStep;
    if b == [] {
      Empty(a);
      Empty(StepsOf(a, plain).value);
    } else {
      var last := |b| - 1;
      assert (a + b)[..|a + b| - 1] == a + b[..last];
      StepsOfConcat(a, b[..last], plain);
      var read := ReadStep(b[last], plain).value;
      Assoc(StepsOf(a, plain).value, StepsOf(b[..last], plain).value, Repeated(read.0, read.1));
    }
  }

  lemma {:induction false} StepsReadBack(cs: seq<CountedStep>, plain: char -> char)
    requires Printable(cs) && KeepsAscii(plain)
    ensures StepsOf(Printed(cs), plain) == Some(Expanded(cs))
  {
    hide ReadStep, PrintStep;
    if cs != [] {
      var c := cs[0];
      StepsReadBack(cs[1..], plain);
      StepReadsBack(c, plain);
      assert [PrintStep(c)][..0] == [];
      Empty(Repeated(c.step, c.count));
      StepsOfConcat([PrintStep(c)], Printed(cs[1..]), plain);
    }
  }

  /** Parsing what a list of counted steps prints to gives their expansion, as long as the counts' sum. */
  lemma SequenceReadsBack(cs: seq<CountedStep>, plain: char -> char)
    requires cs != [] && Printable(cs) && KeepsAscii(plain)
    ensures StepsOf(SplitAll(Print(cs), THEN), plain) == Some(Expanded(cs))
    ensures |Expanded(cs)| == Total(cs)
  {
    PrintSplits(cs);
    StepsReadBack(cs, plain);
    ExpandedLength(cs);
  }

  lemma {:induction false} ExpandedLength(cs: seq<CountedStep>)
    ensures |Expanded(cs)| == Total(cs)
  {
    if cs != [] {
      ExpandedLength(cs[1..]);
    }
  }

  // ----- playing -----

  /** What the first `n` requests get: the steps, and then the last of them for ever. */
  function Answers(steps: seq<Step>, n: nat): seq<Step>
    requires steps != []
  {
    if n <= |steps| then steps[..n] else steps + Repeated(steps[|steps| - 1], n - |steps|)
  }

  class Upstream {
    const steps: seq<Step>
    var served: nat

    constructor (steps: seq<Step>)
      ensures this.steps == steps && served == 0
    {
      this.steps, served := steps, 0;
    }

    /** One request's step, taken under the lock; with no steps at all there is none to give. */
    method NextStep() returns (step: Option<Step>)
      modifies this
      ensures served == old(served) + 1
      ensures step == if steps == [] then None
                      else Some(steps[if old(served) < |steps| - 1 then old(served) else |steps| - 1])
    {
      var index := if served < |steps| - 1 then served else |steps| - 1;
      served := served + 1;
      step := if index < 0 then None else Some(steps[index]);
    }

    /** Any number of requests, one after the other from the start. */
    method Play(n: nat) returns (answers: seq<Step>)
      requires steps != [] && served == 0
      modifies this
      ensures answers == Answers(steps, n) && served == n
    {
      answers := [];
      for i := 0 to n
        invariant served == i && answers == Answers(steps, i)
      {
        var step := NextStep();
        answers := answers + [step.value];
      }
    }
  }
}
