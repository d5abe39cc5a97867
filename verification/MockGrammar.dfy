/** The regular expression a step is matched with: what is read is exactly what it matches, and means what
    its groups say. */
module MockGrammar {
  import opened Text
  import opened MockUpstream

  // ----- flags -----

  ghost predicate IsFlagText(text: string, flag: Flag) {
    match flag
    case RetryAfter(seconds) =>
      exists digits: string :: IsNumber(digits) && text == "-retry-after-" + digits && Read(digits) == seconds
    case ShouldRetry(true) => text == "-x-should-retry-true"
    case ShouldRetry(false) => text == "-x-should-retry-false"
    case PromptTooLong => text == "-prompt-too-long"
  }

  ghost function AllOf(texts: seq<string>): string {
    if texts == [] then "" else texts[0] + AllOf(texts[1..])
  }

  ghost predicate AreFlagTexts(texts: seq<string>, flags: seq<Flag>) {
    |texts| == |flags| && forall i | 0 <= i < |texts| :: IsFlagText(texts[i], flags[i])
  }

  ghost predicate NoDigitFirst(s: string) { s == "" || !IsDigit(s[0]) }

  /** A flag ahead of no digit is read as itself. */
  lemma FlagIsRead(text: string, flag: Flag, rest: string)
    requires IsFlagText(text, flag) && NoDigitFirst(rest)
    ensures ReadFlag(text + rest) == Some((flag, rest))
    ensures text != "" && text[0] == '-'
  {
    match flag
    case RetryAfter(seconds) =>
      var digits: string :| IsNumber(digits) && text == "-retry-after-" + digits && Read(digits) == seconds;
      RetryAfterIsRead(digits, rest);
    case ShouldRetry(value) => ShouldRetryReadsBack(value, rest);
    case PromptTooLong => PromptTooLongReadsBack(rest);
  }

  lemma RetryAfterIsRead(digits: string, rest: string)
    requires IsNumber(digits) && NoDigitFirst(rest)
    ensures ReadFlag("-retry-after-" + digits + rest) == Some((RetryAfter(Read(digits)), rest))
  {
    hide SpanDigits, Read;
    Assoc("-retry-after-", digits, rest);
    Seam("-retry-after-", digits + rest);
    SpanDigitsIs(digits, rest);
  }

  /** What is read as a flag is one. */
  lemma ReadIsAFlag(s: string)
    requires ReadFlag(s).Some?
    ensures exists text: string :: s == text + ReadFlag(s).value.1 && IsFlagText(text, ReadFlag(s).value.0)
  {
    hide Read, SpanDigits;
    var (flag, rest) := ReadFlag(s).value;
    if "-retry-after-" <= s {
      var (digits, _) := SpanDigits(s[13..]);
      assert s == "-retry-after-" + digits + rest;
      assert IsFlagText("-retry-after-" + digits, flag);
    } else {
      var text := s[..|s| - |rest|];
      assert s == text + rest;
      assert IsFlagText(text, flag);
    }
  }

  lemma {:induction false} FlagsAreRead(texts: seq<string>, flags: seq<Flag>)
    requires AreFlagTexts(texts, flags)
    ensures ReadFlags(AllOf(texts)) == Some(flags)
    ensures AllOf(texts) == "" || AllOf(texts)[0] == '-'
  {
    hide ReadFlag, IsFlagText;
    if texts != [] {
      FlagsAreRead(texts[1..], flags[1..]);
      FlagIsRead(texts[0], flags[0], AllOf(texts[1..]));
      assert [flags[0]] + flags[1..] == flags;
    }
  }

  lemma {:induction false} ReadAreFlags(s: string) returns (texts: seq<string>)
    requires ReadFlags(s).Some?
    ensures s == AllOf(texts) && AreFlagTexts(texts, ReadFlags(s).value)
    decreases |s|
  {
    hide ReadFlag, IsFlagText;
    if s == "" {
      texts := [];
    } else {
      var (flag, rest) := ReadFlag(s).value;
      ReadIsAFlag(s);
      var text: string :| s == text + rest && IsFlagText(text, flag);
      var more := ReadAreFlags(rest);
      texts := [text] + more;
      assert texts[1..] == more;
    }
  }

  // ----- steps -----

  /** The first flag of its kind is this one. */
  ghost predicate WaitsFirst(flags: seq<Flag>, seconds: nat) {
    exists i: nat | i < |flags| :: flags[i] == RetryAfter(seconds) && forall j | 0 <= j < i :: !flags[j].RetryAfter?
  }

  ghost predicate RetriesFirst(flags: seq<Flag>, value: bool) {
    exists i: nat | i < |flags| :: flags[i] == ShouldRetry(value) && forall j | 0 <= j < i :: !flags[j].ShouldRetry?
  }

  /** The groups of a match: three digits, digits behind an `x` when it's there, and flags. */
  datatype Groups = Groups(status: string, times: Option<string>, texts: seq<string>, flags: seq<Flag>) {
    predicate AreNumbers() { IsNumber(status) && (times.Some? ==> IsNumber(times.value)) }

    ghost predicate Match(core: string) {
      && |status| == 3 && AreNumbers()
      && core == status + (if times.Some? then "x" + times.value else "") + AllOf(texts)
      && AreFlagTexts(texts, flags)
    }

    /** The numbers, and of each kind of flag the first. */
    ghost predicate Mean(step: Step, count: nat)
      requires AreNumbers()
    {
      && step.status == Read(status)
      && count == (match times case Some(digits) => Read(digits) case None => 1)
      && (forall seconds: nat :: step.retryAfter == Some(seconds) <==> WaitsFirst(flags, seconds))
      && (forall value :: step.shouldRetry == Some(value) <==> RetriesFirst(flags, value))
      && (step.promptTooLong <==> PromptTooLong in flags)
    }
  }

  lemma {:induction false} FirstRetryAfterIs(flags: seq<Flag>, seconds: nat)
    ensures FirstRetryAfter(flags) == Some(seconds) <==> WaitsFirst(flags, seconds)
  {
    if flags != [] {
      var rest := flags[1..];
      FirstRetryAfterIs(rest, seconds);
      if i: nat :| i < |rest| && rest[i] == RetryAfter(seconds) && forall j | 0 <= j < i :: !rest[j].RetryAfter? {
        assert flags[i + 1] == RetryAfter(seconds);
        assert !flags[0].RetryAfter? ==> forall j | 0 <= j < i + 1 :: flags[j] == if j == 0 then flags[0] else rest[j - 1];
      }
      if i: nat :| i < |flags| && flags[i] == RetryAfter(seconds) && forall j | 0 <= j < i :: !flags[j].RetryAfter? {
        if i > 0 {
          assert rest[i - 1] == RetryAfter(seconds) && forall j | 0 <= j < i - 1 :: rest[j] == flags[j + 1];
        }
      }
    }
  }

  lemma {:induction false} FirstShouldRetryIs(flags: seq<Flag>, value: bool)
    ensures FirstShouldRetry(flags) == Some(value) <==> RetriesFirst(flags, value)
  {
    if flags != [] {
      var rest := flags[1..];
      FirstShouldRetryIs(rest, value);
      if i: nat :| i < |rest| && rest[i] == ShouldRetry(value) && forall j | 0 <= j < i :: !rest[j].ShouldRetry? {
        assert flags[i + 1] == ShouldRetry(value);
        assert !flags[0].ShouldRetry? ==> forall j | 0 <= j < i + 1 :: flags[j] == if j == 0 then flags[0] else rest[j - 1];
      }
      if i: nat :| i < |flags| && flags[i] == ShouldRetry(value) && forall j | 0 <= j < i :: !flags[j].ShouldRetry? {
        if i > 0 {
          assert rest[i - 1] == ShouldRetry(value) && forall j | 0 <= j < i - 1 :: rest[j] == flags[j + 1];
        }
      }
    }
  }

  /** The step made of groups is what they mean, and no other is. */
  lemma MeaningIsOne(g: Groups, step: Step, count: nat)
    requires g.AreNumbers()
    ensures g.Mean(step, count) <==>
              && step == Step(Read(g.status), FirstRetryAfter(g.flags), FirstShouldRetry(g.flags), PromptTooLong in g.flags)
              && count == match g.times case Some(digits) => Read(digits) case None => 1
  {
    hide FirstRetryAfter, FirstShouldRetry, Read, WaitsFirst, RetriesFirst;
    forall seconds: nat ensures FirstRetryAfter(g.flags) == Some(seconds) <==> WaitsFirst(g.flags, seconds) {
      FirstRetryAfterIs(g.flags, seconds);
    }
    forall value ensures FirstShouldRetry(g.flags) == Some(value) <==> RetriesFirst(g.flags, value) {
      FirstShouldRetryIs(g.flags, value);
    }
    if g.Mean(step, count) {
      forall x: nat ensures step.retryAfter == Some(x) <==> FirstRetryAfter(g.flags) == Some(x) {
        assert step.retryAfter == Some(x) <==> WaitsFirst(g.flags, x);
      }
      forall x ensures step.shouldRetry == Some(x) <==> FirstShouldRetry(g.flags) == Some(x) {
        assert step.shouldRetry == Some(x) <==> RetriesFirst(g.flags, x);
      }
      SameOption(step.retryAfter, FirstRetryAfter(g.flags));
      SameOption(step.shouldRetry, FirstShouldRetry(g.flags));
    }
  }

  lemma SameOption<T>(a: Option<T>, b: Option<T>)
    ensures (forall x :: a == Some(x) <==> b == Some(x)) ==> a == b
  {
    if a.Some? {
      assert a == Some(a.value);
    } else if b.Some? {
      assert b == Some(b.value);
    }
  }

  lemma CountIsRead(times: Option<string>, rest: string)
    requires (times.Some? ==> IsNumber(times.value)) && (rest == "" || rest[0] == '-')
    ensures ReadCount((if times.Some? then "x" + times.value else "") + rest)
         == (match times case Some(digits) => Some(Read(digits)) case None => None, rest)
  {
    hide Read;
    if times.Some? {
      Assoc("x", times.value, rest);
      Seam("x", times.value + rest);
      SpanDigitsIs(times.value, rest);
    } else {
      Empty(rest);
    }
  }

  lemma MatchIsRead(g: Groups, core: string)
    requires g.Match(core)
    ensures |core| >= 3 && core[..3] == g.status && ReadFlags(AllOf(g.texts)) == Some(g.flags)
    ensures ReadCount(core[3..])
         == (match g.times case Some(digits) => Some(Read(digits)) case None => None, AllOf(g.texts))
  {
    hide ReadCount, ReadFlags, Read, AllOf;
    var times := if g.times.Some? then "x" + g.times.value else "";
    Assoc(g.status, times, AllOf(g.texts));
    Seam(g.status, times + AllOf(g.texts));
    FlagsAreRead(g.texts, g.flags);
    CountIsRead(g.times, AllOf(g.texts));
  }

  lemma ReadMatches(core: string) returns (g: Groups)
    requires |core| >= 3 && IsNumber(core[..3]) && ReadFlags(ReadCount(core[3..]).1).Some?
    ensures g.Match(core) && g.status == core[..3] && Some(g.flags) == ReadFlags(ReadCount(core[3..]).1)
    ensures (match g.times case Some(digits) => Some(Read(digits)) case None => None) == ReadCount(core[3..]).0
  {
    hide ReadFlags, Read, IsFlagText;
    var status, tail := core[..3], core[3..];
    assert core == status + tail;
    var rest := ReadCount(tail).1;
    var texts := ReadAreFlags(rest);
    var flags := ReadFlags(rest).value;
    if ReadCount(tail).0.Some? {
      var (digits, _) := SpanDigits(tail[1..]);
      assert tail == "x" + digits + rest;
      Assoc(status, "x" + digits, rest);
      g := Groups(status, Some(digits), texts, flags);
    } else {
      assert core == status + "" + rest;
      g := Groups(status, None, texts, flags);
    }
  }

  lemma StepHasGroups(part: string, step: Step, count: nat) returns (core: string, g: Groups)
    requires ReadAsciiStep(part) == Some((step, count))
    ensures (part == core || part == core + "\n") && g.Match(core) && g.Mean(step, count)
  {
    hide ReadCount, ReadFlags, Read, Groups.Match, Groups.Mean, FirstRetryAfter, FirstShouldRetry;
    core := if part != "" && part[|part| - 1] == '\n' then part[..|part| - 1] else part;
    assert part == core || part == core + "\n";
    g := ReadMatches(core);
    MatchedAreNumbers(g, core);
    MeaningIsOne(g, step, count);
  }

  lemma MatchedAreNumbers(g: Groups, core: string)
    requires g.Match(core)
    ensures g.AreNumbers()
  {}

  lemma GroupsAreRead(part: string, core: string, g: Groups, step: Step, count: nat)
    requires (part == core || part == core + "\n") && g.Match(core) && g.Mean(step, count)
    ensures ReadAsciiStep(part) == Some((step, count))
  {
    hide ReadCount, ReadFlags, Read, AllOf, Groups.Match, Groups.Mean, FirstRetryAfter, FirstShouldRetry;
    MatchIsRead(g, core);
    MatchEndsPlain(g, core);
    MatchedAreNumbers(g, core);
    assert (core + "\n")[..|core + "\n"| - 1] == core;
    MeaningIsOne(g, step, count);
  }

  /** A step is read exactly from a text that the expression matches, but for one newline at its end, and is what
      the groups mean. */
  lemma StepsAreTheGrammar(part: string, step: Step, count: nat)
    ensures ReadAsciiStep(part) == Some((step, count)) <==>
              exists core: string, g: Groups ::
                (part == core || part == core + "\n") && g.Match(core) && g.Mean(step, count)
  {
    hide ReadAsciiStep, Groups.Mean, AllOf, AreFlagTexts;
    if ReadAsciiStep(part) == Some((step, count)) {
      var core, g := StepHasGroups(part, step, count);
    }
    if core: string, g: Groups :|
      (part == core || part == core + "\n") && g.Match(core) && g.Mean(step, count)
    {
      GroupsAreRead(part, core, g, step, count);
    }
  }

  lemma MatchEndsPlain(g: Groups, core: string)
    requires g.Match(core)
    ensures core != "" && core[|core| - 1] != '\n'
  {
    hide IsFlagText, Read;
    FlagsEndPlain(g.texts, g.flags);
    var digits := if g.times.Some? then g.times.value else g.status;
    assert AllOf(g.texts) != "" ==> core[|core| - 1] == AllOf(g.texts)[|AllOf(g.texts)| - 1];
    assert digits[|digits| - 1] in digits;
    assert AllOf(g.texts) == "" ==> core[|core| - 1] == digits[|digits| - 1];
  }

  lemma {:induction false} FlagsEndPlain(texts: seq<string>, flags: seq<Flag>)
    requires AreFlagTexts(texts, flags)
    ensures AllOf(texts) != "" ==> AllOf(texts)[|AllOf(texts)| - 1] != '\n'
  {
    hide IsFlagText;
    if texts != [] {
      FlagsEndPlain(texts[1..], flags[1..]);
      FlagEndsPlain(texts[0], flags[0]);
      var rest := AllOf(texts[1..]);
      assert rest == "" ==> texts[0] + rest == texts[0];
    }
  }

  lemma FlagEndsPlain(text: string, flag: Flag)
    requires IsFlagText(text, flag)
    ensures text != "" && text[|text| - 1] != '\n'
  {
    match flag
    case RetryAfter(seconds) =>
      var digits: string :| IsNumber(digits) && text == "-retry-after-" + digits && Read(digits) == seconds;
      assert digits[|digits| - 1] in digits;
      assert text[|text| - 1] == digits[|digits| - 1];
    case _ =>
  }
}
