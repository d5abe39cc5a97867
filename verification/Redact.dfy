/** The handover step: refuses a capture that holds a key's shape, drops top-level `metadata`, and replaces
    every spelling of the working directory's path. */
module Redact {
  import opened Text
  import opened Order

  const MARK := "<CWD>"

  // ----- replacing one spelling -----

  /** `replace`: every occurrence of `s` from the left, none overlapping another. */
  function Replace(text: string, s: string): string
    requires s != ""
    decreases |text|
  {
    match Find(text, s)
    case None => text
    case Some(at) => text[..at] + MARK + Replace(text[at + |s|..], s)
  }

  /** How many are replaced. */
  function Count(text: string, s: string): nat
    requires s != ""
    decreases |text|
  {
    match Find(text, s)
    case None => 0
    case Some(at) => 1 + Count(text[at + |s|..], s)
  }

  /** None is made exactly when there's nothing to replace. */
  lemma CountIsNone(text: string, s: string)
    requires s != ""
    ensures Count(text, s) == 0 <==> !Occurs(text, s)
  {
    if Find(text, s).Some? {
      assert OccursAt(text, s, Find(text, s).value);
    }
  }

  /** By how much so many replacements change the length. */
  ghost function Growth(count: nat, s: string): int { count * (|MARK| - |s|) }

  lemma GrowthOfOneMore(count: nat, s: string)
    ensures Growth(0, s) == 0 && Growth(1 + count, s) == Growth(count, s) + |MARK| - |s|
  {}

  /** What's counted is what's replaced: the length changes by as much for each. */
  lemma {:induction false} LengthAfter(text: string, s: string)
    requires s != ""
    ensures |Replace(text, s)| == |text| + Growth(Count(text, s), s)
    decreases |text|
  {
    hide Growth, Replace, Count, Find;
    GrowthOfOneMore(0, s);
    if Find(text, s).None? {
      NothingToReplaceIn(text, s);
      CountIsNone(text, s);
    } else {
      var at := Find(text, s).value;
      ReplacedAt(text, s, at);
      CountedAt(text, s, at);
      LengthAfter(text[at + |s|..], s);
      GrowthOfOneMore(Count(text[at + |s|..], s), s);
    }
  }

  lemma FoundWithin(text: string, s: string, at: nat)
    requires Find(text, s) == Some(at)
    ensures at + |s| <= |text|
  {
    hide Find;
  }

  lemma ReplacedAt(text: string, s: string, at: nat)
    requires s != "" && Find(text, s) == Some(at)
    ensures at + |s| <= |text|
    ensures Replace(text, s) == text[..at] + MARK + Replace(text[at + |s|..], s)
  {
    hide Find, OccursAt;
    FoundWithin(text, s, at);
  }

  lemma CountedAt(text: string, s: string, at: nat)
    requires s != "" && Find(text, s) == Some(at)
    ensures at + |s| <= |text|
    ensures Count(text, s) == 1 + Count(text[at + |s|..], s)
  {
    hide Find, OccursAt;
    FoundWithin(text, s, at);
  }

  lemma Pointwise(text: string, s: string, i: nat)
    ensures OccursAt(text, s, i) <==> i + |s| <= |text| && forall k: nat | k < |s| :: text[i + k] == s[k]
  {
    if i + |s| <= |text| {
      var part := text[i..i + |s|];
      assert forall k: nat | k < |part| :: part[k] == text[i + k];
    }
  }

  /** A text whose first occurrence of `s` comes after `a`. */
  lemma ReplaceFirst(a: string, s: string, b: string)
    requires s != "" && forall j: nat | j < |a| :: !OccursAt(a + s + b, s, j)
    ensures Replace(a + s + b, s) == a + MARK + Replace(b, s)
  {
    Assoc(a, s, b);
    Seam(a, s + b);
    Seam(a + s, b);
    Seam(s, b);
    assert OccursAt(a + s + b, s, |a|) by {
      assert (a + s + b)[|a|..|a| + |s|] == s;
    }
    FindIs(a + s + b, s, |a|);
  }

  lemma NothingToReplaceIn(text: string, s: string)
    requires s != "" && !Occurs(text, s)
    ensures Replace(text, s) == text
  {}

  // ----- what outlives a replacement -----

  /** `s`, starting `d` after the mark's start, or `-d` before it, agrees with the mark where both stand. */
  predicate Fits(s: string, d: int) {
    forall k | 0 <= k < |s| && 0 <= k + d < |MARK| :: s[k] == MARK[k + d]
  }

  /** An occurrence of `s` may share characters with a mark. */
  predicate MeetsMark(s: string) {
    exists d | -|s| < d < |MARK| :: Fits(s, d)
  }

  predicate IsAbsolute(s: string) { s != "" && s[0] == '/' }

  lemma InFront(a: string, c: string, s: string, i: nat)
    requires OccursAt(a + c, s, i) && i + |s| <= |a|
    ensures Occurs(a, s)
  {
    Pointwise(a + c, s, i);
    Pointwise(a, s, i);
    assert OccursAt(a, s, i);
  }

  lemma Behind(a: string, b: string, s: string, i: nat)
    requires OccursAt(a + b, s, i) && |a| <= i
    ensures Occurs(b, s)
  {
    var j: nat := i - |a|;
    Pointwise(a + b, s, i);
    Pointwise(b, s, j);
    forall k: nat | k < |s| ensures b[j + k] == s[k] {
      assert (a + b)[i + k] == b[j + k];
    }
    assert OccursAt(b, s, j);
  }

  lemma Across(a: string, b: string, s: string, i: nat)
    requires OccursAt(a + MARK + b, s, i)
    ensures Fits(s, i - |a|)
    ensures forall k: nat | k < |s| && i + k < |a| :: a[i + k] == s[k]
  {
    var whole, d := a + MARK + b, i - |a|;
    Pointwise(whole, s, i);
    forall k | 0 <= k < |s| && 0 <= k + d < |MARK| ensures s[k] == MARK[k + d] {
      assert whole[i + k] == MARK[k + d];
    }
  }

  /** A path that doesn't meet the mark stands, around a mark, to one side of it. */
  lemma BesideTheMark(a: string, b: string, s: string, i: nat)
    requires s != "" && OccursAt(a + MARK + b, s, i)
    ensures Occurs(a, s) || Occurs(b, s) || (-|s| < i - |a| < |MARK| && Fits(s, i - |a|))
  {
    hide Occurs, OccursAt, Fits;
    if i + |s| <= |a| {
      Assoc(a, MARK, b);
      InFront(a, MARK + b, s, i);
    } else if |a| + |MARK| <= i {
      Behind(a + MARK, b, s, i);
    } else {
      Across(a, b, s, i);
    }
  }

  lemma NotAroundTheMark(a: string, b: string, s: string)
    requires s != "" && !MeetsMark(s) && !Occurs(a, s) && !Occurs(b, s)
    ensures !Occurs(a + MARK + b, s)
  {
    if Occurs(a + MARK + b, s) {
      var i: nat :| i <= |a + MARK + b| && OccursAt(a + MARK + b, s, i);
      BesideTheMark(a, b, s, i);
    }
  }

  /** A path that stands nowhere isn't brought about by replacing another; and none is left of the one
      that's replaced. */
  lemma {:induction false} NoneIsLeft(text: string, s: string, u: string)
    requires s != "" && u != "" && !MeetsMark(u)
    requires u == s || !Occurs(text, u)
    ensures !Occurs(Replace(text, s), u)
    decreases |text|
  {
    hide MeetsMark, Occurs, OccursAt, Replace, Find;
    match Find(text, s)
    case None =>
      Nowhere(text, s);
      NothingToReplaceIn(text, s);
    case Some(at) =>
      ReplacedAt(text, s, at);
      NotAhead(text, s, u, at);
      NotAfter(text, s, u, at);
      NoneIsLeft(text[at + |s|..], s, u);
      NotAroundTheMark(text[..at], Replace(text[at + |s|..], s), u);
  }

  lemma Nowhere(text: string, s: string)
    requires Find(text, s) == None
    ensures !Occurs(text, s)
  {}

  lemma NotAhead(text: string, s: string, u: string, at: nat)
    requires s != "" && Find(text, s) == Some(at)
    requires u == s || !Occurs(text, u)
    ensures at + |s| <= |text| && !Occurs(text[..at], u)
  {
    forall i: nat | OccursAt(text[..at], u, i) ensures OccursAt(text, u, i) && i + |u| <= at {
      assert text[..at][i..i + |u|] == text[i..i + |u|];
    }
  }

  lemma NotAfter(text: string, s: string, u: string, at: nat)
    requires s != "" && OccursAt(text, s, at)
    requires u == s || !Occurs(text, u)
    ensures u == s || !Occurs(text[at + |s|..], u)
  {
    var n := at + |s|;
    forall i: nat | OccursAt(text[n..], u, i) ensures OccursAt(text, u, n + i) {
      assert text[n..][i..i + |u|] == text[n + i..n + i + |u|];
    }
  }

  /** Within `s` up to `i` and `s` again, `s` doesn't begin before `i`. */
  predicate ComesFirst(s: string, i: nat)
    requires i <= |s|
  {
    forall j: nat | j < i :: !OccursAt(s[..i] + s, s, j)
  }

  /** A mark may stand in for a part of `s`: `s` fits it somewhere, and when it starts ahead of it, what's
      ahead and a whole `s` after that hold no earlier one. */
  predicate Outlives(s: string) {
    exists d | -|s| < d < |MARK| :: Fits(s, d) && (d < 0 ==> ComesFirst(s, -d))
  }

  /** Where `s` stands across a mark, the text that was replaced shows that it may. */
  lemma AcrossTheMark(text: string, s: string, at: nat, b: string, i: nat)
    requires s != "" && Find(text, s) == Some(at) && at <= |text| && OccursAt(text[..at] + MARK + b, s, i)
    ensures Occurs(text[..at], s) || Occurs(b, s) || Outlives(s)
  {
    hide Occurs, OccursAt, Fits, ComesFirst, Find;
    var d := i - at;
    BesideTheMark(text[..at], b, s, i);
    if -|s| < d < |MARK| && Fits(s, d) {
      if d < 0 {
        Across(text[..at], b, s, i);
        NoneBefore(text, s, at, i);
      }
    }
  }

  /** The first occurrence follows a start of `s` that brings about no earlier one. */
  lemma NoneBefore(text: string, s: string, at: nat, i: nat)
    requires s != "" && Find(text, s) == Some(at) && i < at < i + |s| && at <= |text|
    requires forall k: nat | k < |s| && i + k < at :: text[..at][i + k] == s[k]
    ensures ComesFirst(s, at - i)
  {
    hide Find, OccursAt;
    var n := at - i;
    FoundWithin(text, s, at);
    StretchIs(text, s, at, i);
    forall j: nat | j < n ensures !OccursAt(s[..n] + s, s, j) {
      Within(text, i, n + |s|, s, j);
      assert !OccursAt(text, s, i + j);
    }
  }

  lemma StretchIs(text: string, s: string, at: nat, i: nat)
    requires OccursAt(text, s, at) && i < at < i + |s|
    requires forall k: nat | k < |s| && i + k < at :: text[..at][i + k] == s[k]
    ensures s[..at - i] + s == text[i..at + |s|]
  {
    var ahead, n := text[..at], at - i;
    assert ahead[i..] == s[..n] by {
      forall k: nat | k < n ensures ahead[i..][k] == s[k] {
        assert ahead[i + k] == s[k];
      }
    }
    assert text[i..at] == ahead[i..];
    assert text[i..at + |s|] == text[i..at] + text[at..at + |s|];
  }

  lemma Within(text: string, i: nat, n: nat, s: string, j: nat)
    requires i + n <= |text|
    ensures OccursAt(text[i..i + n], s, j) ==> OccursAt(text, s, i + j)
  {
    var part, m := text[i..i + n], i + j;
    Pointwise(part, s, j);
    Pointwise(text, s, m);
    if OccursAt(part, s, j) {
      forall k: nat | k < |s| ensures text[m + k] == s[k] {
        assert part[j + k] == text[m + k];
      }
    }
  }

  lemma Beside(a: string, b: string, c: string, s: string, i: nat)
    requires OccursAt(b, s, i)
    ensures Occurs(a + b + c, s)
  {
    var whole, n := a + b + c, |a| + i;
    assert whole[n..n + |s|] == b[i..i + |s|];
    assert OccursAt(whole, s, n);
  }

  lemma {:induction false} NothingOutlives(text: string, s: string)
    requires s != "" && !Outlives(s)
    ensures !Occurs(Replace(text, s), s)
    decreases |text|
  {
    hide Outlives, Occurs, OccursAt, Replace, Find;
    match Find(text, s)
    case None =>
      Nowhere(text, s);
      NothingToReplaceIn(text, s);
    case Some(at) =>
      ReplacedAt(text, s, at);
      NotAhead(text, s, s, at);
      NothingOutlives(text[at + |s|..], s);
      NotAcross(text, s, at, Replace(text[at + |s|..], s));
  }

  lemma NotAcross(text: string, s: string, at: nat, b: string)
    requires s != "" && !Outlives(s) && Find(text, s) == Some(at) && at <= |text|
    requires !Occurs(text[..at], s) && !Occurs(b, s)
    ensures !Occurs(text[..at] + MARK + b, s)
  {
    hide Outlives;
    var whole := text[..at] + MARK + b;
    if Occurs(whole, s) {
      var i: nat :| i <= |whole| && OccursAt(whole, s, i);
      AcrossTheMark(text, s, at, b, i);
    }
  }

  /** A text in which a path that may outlive its own replacement does. */
  lemma OutlivingText(s: string) returns (text: string)
    requires s != "" && Outlives(s)
    ensures Occurs(Replace(text, s), s)
  {
    hide Replace, Find;
    var d :| -|s| < d < |MARK| && Fits(s, d) && (d < 0 ==> ComesFirst(s, -d));
    var ahead := if d < 0 then s[..-d] else "";
    var after := if |MARK| - d < |s| then s[|MARK| - d..] else "";
    text := ahead + s + after;
    forall j: nat | j < |ahead| ensures !OccursAt(text, s, j) {
      EarlierIsWithin(ahead, s, after, j);
    }
    ReplaceFirst(ahead, s, after);
    forall j: nat ensures !OccursAt(after, s, j) {}
    NothingToReplaceIn(after, s);
    Rebuilt(s, d, ahead, after);
  }

  lemma EarlierIsWithin(ahead: string, s: string, after: string, j: nat)
    requires j < |ahead|
    ensures OccursAt(ahead + s + after, s, j) <==> OccursAt(ahead + s, s, j)
  {
    assert (ahead + s + after)[j..j + |s|] == (ahead + s)[j..j + |s|];
  }

  lemma Rebuilt(s: string, d: int, ahead: string, after: string)
    requires s != "" && -|s| < d < |MARK| && Fits(s, d)
    requires ahead == if d < 0 then s[..-d] else ""
    requires after == if |MARK| - d < |s| then s[|MARK| - d..] else ""
    ensures Occurs(ahead + MARK + after, s)
  {
    var rebuilt := ahead + MARK + after;
    var i: nat := if d < 0 then 0 else d;
    forall k: nat | k < |s| ensures rebuilt[i + k] == s[k] {
      assert 0 <= k + d < |MARK| ==> s[k] == MARK[k + d];
    }
    Pointwise(rebuilt, s, i);
    assert OccursAt(rebuilt, s, i);
  }

  /** Replacing `s` takes every occurrence away, whatever the text. */
  ghost predicate AlwaysGone(s: string)
    requires s != ""
  {
    forall text :: !Occurs(Replace(text, s), s)
  }

  /** A path is gone from every text it's replaced in exactly when no mark may stand in for a part of it;
      of one that doesn't start with `<`, exactly when it may share no character with a mark; and for an
      absolute one it's enough that it holds no `<`. */
  lemma GoneExactlyWhenItMissesTheMark(s: string)
    requires s != ""
    ensures AlwaysGone(s) <==> !Outlives(s)
    ensures s[0] != '<' ==> (AlwaysGone(s) <==> !MeetsMark(s))
    ensures IsAbsolute(s) && '<' !in s ==> AlwaysGone(s)
  {
    hide Replace, Occurs, MeetsMark, Outlives;
    if Outlives(s) {
      var text := OutlivingText(s);
    } else {
      forall text ensures !Occurs(Replace(text, s), s) {
        NothingOutlives(text, s);
      }
    }
    if s[0] != '<' {
      OutlivesWhatItMeets(s);
    }
    if IsAbsolute(s) && '<' !in s {
      MissesTheMark(s);
    }
  }

  lemma OutlivesWhatItMeets(s: string)
    requires s != "" && s[0] != '<'
    ensures Outlives(s) <==> MeetsMark(s)
  {
    if MeetsMark(s) {
      var d :| -|s| < d < |MARK| && Fits(s, d);
      if d < 0 {
        var i := -d;
        assert s[i] == MARK[i + d];
        forall j: nat | j < i ensures !OccursAt(s[..i] + s, s, j) {
          NoEarlier(s, i, j);
        }
      }
    }
  }

  lemma NoEarlier(s: string, i: nat, j: nat)
    requires s != "" && s[0] != '<' && j < i < |s| && s[i] == '<'
    ensures !OccursAt(s[..i] + s, s, j)
  {
    var text := s[..i] + s;
    assert text[j] == s[j] && text[j + i] == s[j];
    Pointwise(text, s, j);
    assert !(text[j + 0] == s[0] && text[j + i] == s[i]);
  }

  lemma MissesTheMark(s: string)
    requires IsAbsolute(s) && '<' !in s
    ensures !MeetsMark(s)
  {
    forall d | -|s| < d < |MARK| ensures !Fits(s, d) {
      var k := if d < 0 then -d else 0;
      assert s[k] != MARK[k + d];
    }
  }

  /** One that starts with `<` may meet the mark and still be gone whenever it's replaced; yet the mark of a later
      spelling may bring it about again. */
  lemma MeetingIsNotEnough()
    ensures AlwaysGone("<a<") && !AlwaysGoneFromAll("<a<")
  {
    hide AlwaysGoneFromAll, Outlives, MeetsMark;
    GoneOnItsOwn();
    GoneExactlyWhenItMissesTheMark("<a<");
    GoneFromAllExactlyWhenItMissesTheMark("<a<", 'x');
  }

  lemma GoneOnItsOwn()
    ensures MeetsMark("<a<") && !Outlives("<a<")
  {
    var s := "<a<";
    assert Fits(s, -2);
    forall d | -|s| < d < |MARK| && d != -2 ensures !Fits(s, d) {
      var k := if d == -1 then 1 else 0;
      assert d == 0 ==> s[1] != MARK[1 + d];
      assert d != 0 ==> s[k] != MARK[k + d];
    }
    assert (s[..2] + s)[0..3] == s;
    assert OccursAt(s[..2] + s, s, 0);
  }

  /** A path that's a part of the mark itself never goes. */
  lemma PartOfTheMarkStays(text: string, s: string)
    requires s != "" && Occurs(MARK, s) && Occurs(text, s)
    ensures Occurs(Replace(text, s), s)
  {
    var at := Find(text, s).value;
    var i: nat :| i <= |MARK| && OccursAt(MARK, s, i);
    hide Replace, Find, OccursAt;
    ReplacedAt(text, s, at);
    Beside(text[..at], MARK, Replace(text[at + |s|..], s), s, i);
  }

  /** As `CWD` is. */
  lemma ARelativePathMayStay()
    ensures Occurs(MARK, "CWD")
  {
    var cwd := "CWD";
    assert MARK == "<" + cwd + ">";
    Seam("<", cwd + ">");
    Beside("<", cwd, ">", cwd, 0) by {
      assert cwd[0..3] == cwd;
    }
  }

  // ----- every spelling -----

  function ReplaceAll(text: string, spellings: seq<string>): string
    requires "" !in spellings
  {
    if spellings == [] then text
    else Replace(ReplaceAll(text, spellings[..|spellings| - 1]), spellings[|spellings| - 1])
  }

  /** Spellings that are told from the mark. */
  predicate ToldApart(spellings: seq<string>) {
    forall s | s in spellings :: s != "" && !MeetsMark(s)
  }

  /** After the last spelling is replaced none is left that's told from the mark, whatever the others are. */
  lemma {:induction false} NoSpellingIsLeft(text: string, spellings: seq<string>)
    requires "" !in spellings
    ensures forall s | s in spellings && !MeetsMark(s) :: !Occurs(ReplaceAll(text, spellings), s)
  {
    if spellings != [] {
      var init, last := spellings[..|spellings| - 1], spellings[|spellings| - 1];
      assert spellings == init + [last];
      NoSpellingIsLeft(text, init);
      hide MeetsMark, Occurs, Replace;
      forall s | s in spellings && !MeetsMark(s) ensures !Occurs(ReplaceAll(text, spellings), s) {
        assert s in init || s == last;
        NoneIsLeft(ReplaceAll(text, init), last, s);
      }
    }
  }

  lemma {:induction false} NothingToReplace(text: string, spellings: seq<string>)
    requires "" !in spellings && forall s | s in spellings :: !Occurs(text, s)
    ensures ReplaceAll(text, spellings) == text
  {
    if spellings != [] {
      var last := spellings[|spellings| - 1];
      NothingToReplace(text, spellings[..|spellings| - 1]);
      assert !Occurs(text, last);
    }
  }

  /** Replacing all of them once more changes nothing. */
  lemma ReplacingTwiceIsOnce(text: string, spellings: seq<string>)
    requires "" !in spellings && ToldApart(spellings)
    ensures ReplaceAll(ReplaceAll(text, spellings), spellings) == ReplaceAll(text, spellings)
  {
    NoSpellingIsLeft(text, spellings);
    NothingToReplace(ReplaceAll(text, spellings), spellings);
  }

  function Shortness(s: string): int { -|s| }

  predicate LongestFirst(spellings: seq<string>) { IsRanked(spellings, Shortness) }

  /** When a spelling's turn comes no longer one is left in the text, so what's replaced is never a part
      of a longer one, whose tail would be left behind. */
  lemma NoneIsCutShort(text: string, spellings: seq<string>, k: nat)
    requires "" !in spellings && LongestFirst(spellings) && k < |spellings|
    ensures forall long | long in spellings && |long| > |spellings[k]| && !MeetsMark(long) ::
              !Occurs(ReplaceAll(text, spellings[..k]), long)
  {
    NoSpellingIsLeft(text, spellings[..k]);
    forall long | long in spellings && |long| > |spellings[k]| ensures long in spellings[..k] {
      var i: nat :| i < |spellings| && spellings[i] == long;
    }
  }

  predicate AllDistinct(spellings: seq<string>) {
    forall i, j | 0 <= i < j < |spellings| :: spellings[i] != spellings[j]
  }

  /** A path as the loop gets it: not empty, and without a slash at the end. */
  predicate IsSpelling(s: string) { s != "" && s[|s| - 1] != '/' }

  /** Paths as the loop gets them. */
  predicate AreSpellings(spellings: seq<string>) {
    "" !in spellings && (forall s | s in spellings :: IsSpelling(s)) && AllDistinct(spellings) && LongestFirst(spellings)
  }

  /** The loop takes every occurrence away, whatever the text and the other spellings. */
  ghost predicate AlwaysGoneFromAll(s: string) {
    forall text, spellings | AreSpellings(spellings) && s in spellings :: !Occurs(ReplaceAll(text, spellings), s)
  }

  /** A spelling is gone from every text the loop is through with exactly when it may share no character with
      a mark: of one that may, a text and at the most one more spelling, an absolute one, show it. `c` is any
      character the path leaves out. */
  lemma GoneFromAllExactlyWhenItMissesTheMark(s: string, c: char)
    requires IsSpelling(s) && c !in s && c != '/'
    ensures AlwaysGoneFromAll(s) <==> !MeetsMark(s)
  {
    hide MeetsMark, Outlives, Fits, ReplaceAll, Occurs, AllDistinct, LongestFirst;
    if !MeetsMark(s) {
      forall text, spellings | AreSpellings(spellings) && s in spellings
        ensures !Occurs(ReplaceAll(text, spellings), s)
      {
        NoSpellingIsLeft(text, spellings);
      }
    } else if Outlives(s) {
      var text := OutlivingText(s);
      AloneInTheLoop(text, s);
      assert s in [s] && AreSpellings([s]);
    } else {
      var d := ItFitsAhead(s);
      var text := BroughtAbout(s, d, c);
      assert s in [s, ['/', c]];
    }
  }

  lemma AloneInTheLoop(text: string, s: string)
    requires s != ""
    ensures IsSpelling(s) ==> AreSpellings([s])
    ensures ReplaceAll(text, [s]) == Replace(text, s)
  {
    assert [s][..0] == [];
  }

  lemma ItFitsAhead(s: string) returns (d: int)
    requires MeetsMark(s) && !Outlives(s)
    ensures -|s| < d < 0 && Fits(s, d)
  {
    hide Fits, ComesFirst;
    d :| -|s| < d < |MARK| && Fits(s, d);
  }

  /** A later spelling's mark makes a text hold the path that didn't. */
  lemma BroughtAbout(s: string, d: int, c: char) returns (text: string)
    requires IsSpelling(s) && c !in s && c != '/' && -|s| < d < 0 && Fits(s, d)
    ensures AreSpellings([s, ['/', c]]) && Occurs(ReplaceAll(text, [s, ['/', c]]), s)
  {
    hide Replace, Occurs, OccursAt;
    AreTwo(s, c);
    var other := ['/', c];
    var ahead, after := s[..-d], if |MARK| - d < |s| then s[|MARK| - d..] else "";
    text := ahead + other + after;
    NotAroundTheOther(s, d, c, after);
    NothingToReplaceIn(text, s);
    OneMoreInTheLoop(text, s, other);
    NoOther(ahead, c, after);
    ReplaceFirst(ahead, other, after);
    NothingToReplaceIn(after, other);
    Rebuilt(s, d, ahead, after);
  }

  lemma OneMoreInTheLoop(text: string, s: string, other: string)
    requires s != "" && other != ""
    ensures ReplaceAll(text, [s, other]) == Replace(Replace(text, s), other)
  {
    assert [s, other][..1] == [s] && [s][..0] == [];
    AloneInTheLoop(text, s);
  }

  lemma AreTwo(s: string, c: char)
    requires IsSpelling(s) && |s| >= 2 && c !in s && c != '/'
    ensures AreSpellings([s, ['/', c]])
  {
    assert ['/', c][1] == c;
  }

  lemma NotAroundTheOther(s: string, d: int, c: char, after: string)
    requires s != "" && c !in s && c != '/' && -|s| < d < 0 && Fits(s, d) && |after| < |s|
    ensures !Occurs(s[..-d] + ['/', c] + after, s)
  {
    var text := s[..-d] + ['/', c] + after;
    assert s[-d] == MARK[0];
    forall i: nat ensures !OccursAt(text, s, i) {
      Pointwise(text, s, i);
      var at := 1 - d;
      assert text[at] == c;
      if i <= at < i + |s| {
        assert s[at - i] != c;
      } else if i == 0 {
        assert text[-d] == '/';
      }
    }
  }

  lemma NoOther(ahead: string, c: char, after: string)
    requires c !in ahead && c !in after && c != '/'
    ensures forall j: nat | j < |ahead| :: !OccursAt(ahead + ['/', c] + after, ['/', c], j)
    ensures !Occurs(after, ['/', c])
  {
    var text, other := ahead + ['/', c] + after, ['/', c];
    forall j: nat | j < |ahead| ensures !OccursAt(text, other, j) {
      Pointwise(text, other, j);
      assert other[1] == c && (if j + 1 < |ahead| then text[j + 1] == ahead[j + 1] else text[j + 1] == '/');
    }
    forall i: nat ensures !OccursAt(after, other, i) {
      Pointwise(after, other, i);
      assert other[1] == c;
      assert i + 2 <= |after| ==> after[i + 1] in after;
    }
  }

  // ----- lines -----

  /** What holds no newline stands within one line. */
  lemma WithinALine(a: string, b: string, s: string, i: nat)
    requires s != "" && '\n' !in s
    ensures OccursAt(a + "\n" + b, s, i) <==>
              (i + |s| <= |a| && OccursAt(a, s, i)) || (i > |a| && OccursAt(b, s, i - |a| - 1))
  {
    var whole := a + "\n" + b;
    Pointwise(whole, s, i);
    if i > |a| {
      var j: nat := i - |a| - 1;
      Pointwise(b, s, j);
      assert j <= |b| ==> whole[i..] == b[j..];
    } else if i + |s| <= |a| {
      Pointwise(a, s, i);
    } else if i + |s| <= |whole| {
      var k: nat := |a| - i;
      assert whole[i + k] == '\n' && s[k] in s;
    }
  }

  /** Replacing goes line by line. */
  lemma {:induction false} ReplaceInLines(a: string, b: string, s: string)
    requires s != "" && '\n' !in s
    ensures Replace(a + "\n" + b, s) == Replace(a, s) + "\n" + Replace(b, s)
    decreases |a|
  {
    hide Replace, Find, OccursAt, Occurs;
    var whole := a + "\n" + b;
    match Find(a, s)
    case Some(at) =>
      FirstInTheFirst(a, b, s, at);
      ReplacedAt(a, s, at);
      ReplacedAt(whole, s, at);
      var rest := a[at + |s|..];
      assert whole[..at] == a[..at] && whole[at + |s|..] == rest + "\n" + b;
      ReplaceInLines(rest, b, s);
      Assoc(a[..at] + MARK, Replace(rest, s), "\n" + Replace(b, s));
      Assoc(a[..at] + MARK + Replace(rest, s), "\n", Replace(b, s));
      Assoc(Replace(rest, s), "\n", Replace(b, s));
    case None =>
      Nowhere(a, s);
      NothingToReplaceIn(a, s);
      ReplaceInTheSecond(a, b, s);
  }

  lemma FirstInTheFirst(a: string, b: string, s: string, at: nat)
    requires s != "" && '\n' !in s && Find(a, s) == Some(at)
    ensures Find(a + "\n" + b, s) == Some(at)
  {
    hide Find, OccursAt;
    FoundWithin(a, s, at);
    WithinALine(a, b, s, at);
    forall j: nat | j < at ensures !OccursAt(a + "\n" + b, s, j) {
      WithinALine(a, b, s, j);
    }
    FindIs(a + "\n" + b, s, at);
  }

  lemma ReplaceInTheSecond(a: string, b: string, s: string)
    requires s != "" && '\n' !in s && !Occurs(a, s)
    ensures Replace(a + "\n" + b, s) == a + "\n" + Replace(b, s)
  {
    hide Replace, Find, OccursAt, Occurs;
    var whole, n := a + "\n" + b, |a| + 1;
    match Find(b, s)
    case Some(at) =>
      FirstInTheSecond(a, b, s, at);
      ReplacedAt(b, s, at);
      ReplacedAt(whole, s, n + at);
      assert whole[..n + at] == a + "\n" + b[..at] && whole[n + at + |s|..] == b[at + |s|..];
      Assoc(a + "\n", b[..at], MARK + Replace(b[at + |s|..], s));
      Assoc(a + "\n" + b[..at], MARK, Replace(b[at + |s|..], s));
      Assoc(b[..at], MARK, Replace(b[at + |s|..], s));
    case None =>
      Nowhere(b, s);
      NothingToReplaceIn(b, s);
      InNeither(a, b, s);
      NothingToReplaceIn(whole, s);
  }

  lemma FirstInTheSecond(a: string, b: string, s: string, at: nat)
    requires s != "" && '\n' !in s && !Occurs(a, s) && Find(b, s) == Some(at)
    ensures Find(a + "\n" + b, s) == Some(|a| + 1 + at)
  {
    hide Find, OccursAt;
    var n := |a| + 1 + at;
    WithinALine(a, b, s, n);
    forall j: nat | j < n ensures !OccursAt(a + "\n" + b, s, j) {
      WithinALine(a, b, s, j);
      assert OccursAt(a, s, j) && j <= |a| ==> Occurs(a, s);
    }
    FindIs(a + "\n" + b, s, n);
  }

  lemma InNeither(a: string, b: string, s: string)
    requires s != "" && '\n' !in s && !Occurs(a, s) && !Occurs(b, s)
    ensures !Occurs(a + "\n" + b, s)
  {
    hide OccursAt;
    forall j: nat | j <= |a + "\n" + b| ensures !OccursAt(a + "\n" + b, s, j) {
      WithinALine(a, b, s, j);
      assert OccursAt(a, s, j) && j <= |a| ==> Occurs(a, s);
      assert j > |a| && OccursAt(b, s, j - |a| - 1) ==> Occurs(b, s);
    }
  }

  predicate OnOneLine(spellings: seq<string>) {
    forall s | s in spellings :: s != "" && '\n' !in s
  }

  /** So does replacing every spelling. */
  lemma {:induction false} ReplaceAllInLines(a: string, b: string, spellings: seq<string>)
    requires "" !in spellings && OnOneLine(spellings)
    ensures ReplaceAll(a + "\n" + b, spellings) == ReplaceAll(a, spellings) + "\n" + ReplaceAll(b, spellings)
  {
    hide Replace;
    if spellings != [] {
      var init, last := spellings[..|spellings| - 1], spellings[|spellings| - 1];
      ReplaceAllInLines(a, b, init);
      ReplaceInLines(ReplaceAll(a, init), ReplaceAll(b, init), last);
    }
  }

  lemma {:induction false} ReplaceAddsNoNewline(text: string, s: string)
    requires s != "" && '\n' !in text
    ensures '\n' !in Replace(text, s)
    decreases |text|
  {
    hide Replace, Find, OccursAt;
    match Find(text, s)
    case None =>
      Nowhere(text, s);
      NothingToReplaceIn(text, s);
    case Some(at) =>
      ReplacedAt(text, s, at);
      ReplaceAddsNoNewline(text[at + |s|..], s);
  }

  lemma {:induction false} ReplaceAllAddsNoNewline(text: string, spellings: seq<string>)
    requires "" !in spellings && '\n' !in text
    ensures '\n' !in ReplaceAll(text, spellings)
  {
    hide Replace;
    if spellings != [] {
      var init := spellings[..|spellings| - 1];
      ReplaceAllAddsNoNewline(text, init);
      ReplaceAddsNoNewline(ReplaceAll(text, init), spellings[|spellings| - 1]);
    }
  }

  function EachReplaced(lines: seq<string>, spellings: seq<string>): (replaced: seq<string>)
    requires "" !in spellings
    ensures |replaced| == |lines|
  {
    seq(|lines|, i requires 0 <= i < |lines| => ReplaceAll(lines[i], spellings))
  }

  lemma {:induction false} ReplaceAllJoined(lines: seq<string>, spellings: seq<string>)
    requires lines != [] && "" !in spellings && OnOneLine(spellings)
    ensures ReplaceAll(Joined(lines, '\n'), spellings) == Joined(EachReplaced(lines, spellings), '\n')
  {
    hide ReplaceAll, Joined;
    var rest := lines[1..];
    assert lines == [lines[0]] + rest;
    JoinedAfter(lines[0], rest, '\n');
    assert EachReplaced(lines, spellings) == [ReplaceAll(lines[0], spellings)] + EachReplaced(rest, spellings);
    JoinedAfter(ReplaceAll(lines[0], spellings), EachReplaced(rest, spellings), '\n');
    if rest != [] {
      ReplaceAllInLines(lines[0], Joined(rest, '\n'), spellings);
      ReplaceAllJoined(rest, spellings);
    }
  }

  // ----- the spellings -----

  function RStrip(s: string): string {
    if s != "" && s[|s| - 1] == '/' then RStrip(s[..|s| - 1]) else s
  }

  /** Only slashes are taken off, and none is left at the end. */
  lemma {:induction false} SlashesAreTakenOff(s: string) returns (slashes: string)
    ensures s == RStrip(s) + slashes && (forall c | c in slashes :: c == '/')
    ensures RStrip(s) != "" ==> RStrip(s)[|RStrip(s)| - 1] != '/'
  {
    slashes := "";
    if s != "" && s[|s| - 1] == '/' {
      slashes := SlashesAreTakenOff(s[..|s| - 1]);
      slashes := slashes + "/";
    }
  }

  /** The paths without a slash at the end, each once, in the order they first come. */
  function Listed(given: seq<string>): seq<string> {
    if given == [] then []
    else
      var before, spelling := Listed(given[..|given| - 1]), RStrip(given[|given| - 1]);
      if spelling == "" || spelling in before then before else before + [spelling]
  }

  predicate Spells(s: string, given: seq<string>) {
    s != "" && exists g | g in given :: s == RStrip(g)
  }

  lemma {:induction false} ListedHolds(given: seq<string>)
    ensures "" !in Listed(given) && AllDistinct(Listed(given))
    ensures forall s :: s in Listed(given) <==> Spells(s, given)
  {
    hide RStrip;
    if given != [] {
      var init, last := given[..|given| - 1], given[|given| - 1];
      ListedHolds(init);
      assert given == init + [last];
      forall s ensures Spells(s, given) <==> Spells(s, init) || (s != "" && s == RStrip(last)) {
      }
    }
  }

  /** The given paths without their trailing slashes: none empty, none twice, by falling length. */
  method Spellings(given: seq<string>) returns (spellings: seq<string>)
    ensures AreSpellings(spellings)
    ensures forall s :: s in spellings <==> Spells(s, given)
    ensures forall n :: OfRank(spellings, Shortness, n) == OfRank(Listed(given), Shortness, n)
  {
    var listed: seq<string> := [];
    for i := 0 to |given|
      invariant listed == Listed(given[..i])
    {
      assert given[..i + 1][..i] == given[..i];
      var spelling := RStrip(given[i]);
      if spelling != "" && spelling !in listed {
        listed := listed + [spelling];
      }
    }
    assert given[..|given|] == given;
    ListedHolds(given);
    spellings := SortedBy(listed, Shortness);
    SortedByHolds(listed, Shortness);
    SameElements(spellings, listed);
    forall s | s in spellings ensures IsSpelling(s) {
      assert Spells(s, given);
      var g :| g in given && s == RStrip(g);
      StrippedEnds(g);
    }
    forall n {
      SortedByIsStable(listed, Shortness, n);
    }
  }

  lemma {:induction false} StrippedEnds(g: string)
    ensures RStrip(g) != "" ==> IsSpelling(RStrip(g))
  {
    if g != "" && g[|g| - 1] == '/' {
      StrippedEnds(g[..|g| - 1]);
    }
  }

  lemma SameElements(a: seq<string>, b: seq<string>)
    requires multiset(a) == multiset(b)
    ensures forall s :: s in a <==> s in b
    ensures AllDistinct(b) ==> AllDistinct(a)
  {
    forall s ensures s in a <==> s in b {
      assert s in multiset(a) <==> s in multiset(b);
    }
    if AllDistinct(b) {
      forall i, j | 0 <= i < j < |a| ensures a[i] != a[j] {
        OnceOnly(b, a[i]);
        if a[i] == a[j] {
          Twice(a, i, j);
        }
      }
    }
  }

  lemma OnceOnly(s: seq<string>, x: string)
    requires AllDistinct(s)
    ensures multiset(s)[x] <= 1
  {
    if s != [] {
      var init := s[..|s| - 1];
      OnceOnly(init, x);
      assert s == init + [s[|s| - 1]];
      if s[|s| - 1] == x {
        assert x !in init;
      }
    }
  }

  lemma Twice(s: seq<string>, i: nat, j: nat)
    requires i < j < |s| && s[i] == s[j]
    ensures multiset(s)[s[i]] >= 2
  {
    assert s == s[..i] + [s[i]] + s[i + 1..j] + [s[j]] + s[j + 1..];
  }
}
