/** The directives of the diagnostic log: what was asked for, with the network and telemetry crates held
    to warnings unless it names them. */
module Diagnostics {
  import opened Text

  const FLOORED := [
    "opentelemetry", "opentelemetry_sdk", "opentelemetry_otlp", "tonic", "tower", "hyper", "hyper_util", "h2",
    "reqwest", "rustls"]

  predicate IsComma(c: char) { c == ',' }

  predicate EndsTarget(c: char) { c == '=' || c == '[' }

  function Directives(text: string): seq<string> { SplitWhere(text, IsComma) }

  /** What a directive names: what stands ahead of a level or a span. */
  function TargetOf(directive: string): string { SplitWhere(directive, EndsTarget)[0] }

  /** Whether a directive names `target`, or a module within it. */
  predicate DirectiveNames(directive: string, target: string) {
    var named := TargetOf(directive);
    named == target || (target <= named && "::" <= named[|target|..])
  }

  predicate Names(text: string, target: string) {
    exists directive | directive in Directives(text) :: DirectiveNames(directive, target)
  }

  function Held(target: string): string { target + "=warn" }

  /** The directives added for those of `targets` that `asked` doesn't name. */
  function Added(asked: string, targets: seq<string>): seq<string> {
    if targets == [] then []
    else
      var last := targets[|targets| - 1];
      Added(asked, targets[..|targets| - 1]) + (if Names(asked, last) then [] else [Held(last)])
  }

  /** Targets are plain: nothing in one ends a directive or a target. */
  predicate IsPlain(target: string) {
    forall c | c in target :: !IsComma(c) && !EndsTarget(c)
  }

  lemma HeldIsOneDirective(target: string)
    requires IsPlain(target)
    ensures Directives(Held(target)) == [Held(target)]
    ensures TargetOf(Held(target)) == target
  {
    SplitWhereWhole(Held(target), IsComma);
    assert Held(target) == target + ['='] + "warn";
    SplitWhereConcat(target, '=', "warn", EndsTarget);
    SplitWhereWhole(target, EndsTarget);
  }

  /** What was asked is kept whole, and after it come, in the list's order, exactly the directives of the
      crates it doesn't name; so as directives it is what was asked and then those. */
  method Floored(asked: string) returns (directives: string)
    ensures asked <= directives
    ensures Directives(directives) == Directives(asked) + Added(asked, [
              "opentelemetry", "opentelemetry_sdk", "opentelemetry_otlp", "tonic", "tower", "hyper", "hyper_util",
              "h2", "reqwest", "rustls"])
  {
    hide IsPlain, Names;
    directives := asked;
    Empty(Directives(asked));
    for i := 0 to |FLOORED|
      invariant asked <= directives
      invariant Directives(directives) == Directives(asked) + Added(asked, FLOORED[..i])
    {
      var target := FLOORED[i];
      assert FLOORED[..i + 1][..i] == FLOORED[..i];
      if !Names(asked, target) {
        ghost var before := directives;
        directives := directives + ",";
        directives := directives + target;
        directives := directives + "=warn";
        OneDirectiveMore(before, target, directives);
        Assoc(Directives(asked), Added(asked, FLOORED[..i]), [Held(target)]);
      } else {
        Empty(Added(asked, FLOORED[..i]));
      }
    }
    assert FLOORED[..|FLOORED|] == FLOORED;
  }

  lemma OneDirectiveMore(before: string, target: string, after: string)
    requires target in FLOORED && after == before + "," + target + "=warn"
    ensures Directives(after) == Directives(before) + [Held(target)] && before <= after
  {
    FlooredArePlain(target);
    Assoc(before + ",", target, "=warn");
    SplitWhereConcat(before, ',', Held(target), IsComma);
    HeldIsOneDirective(target);
  }

  lemma FlooredArePlain(target: string)
    requires target in FLOORED
    ensures IsPlain(target)
  {
    assert forall i | 0 <= i < |FLOORED| :: IsPlain(FLOORED[i]);
  }

  /** A plain target is named by a directive that is it, or goes on after it with a level, a span or `::`. */
  lemma DirectiveNamesIs(directive: string, target: string)
    requires IsPlain(target)
    ensures DirectiveNames(directive, target) <==>
              && target <= directive
              && var rest := directive[|target|..];
                 rest == "" || rest[0] == '=' || rest[0] == '[' || (|rest| >= 2 && rest[0] == ':' && rest[1] == ':')
  {
    FirstStretch(directive);
    hide TargetOf;
    var named, n := TargetOf(directive), |target|;
    if target <= directive {
      assert forall k | 0 <= k < n :: directive[k] == target[k] && target[k] in target;
      assert n <= |named| && named == directive[..|named|] && target == directive[..n];
      assert n < |named| ==> directive[n] in named;
      if n + 2 <= |directive| && directive[n] == ':' && directive[n + 1] == ':' {
        assert n + 2 <= |named|;
        assert named[n] == ':' && named[n + 1] == ':';
        assert named[n..][..2] == "::";
      }
    }
    if target <= named && "::" <= named[n..] {
      assert named[n..][0] == ':' && named[n..][1] == ':';
      assert directive[n..][0] == ':' && directive[n..][1] == ':';
    }
  }

  /** What a directive names is all of it up to its first `=` or `[`. */
  lemma {:induction false} FirstStretch(directive: string)
    ensures var named := TargetOf(directive);
            && named <= directive && (forall c | c in named :: c != '=' && c != '[')
            && (named == directive || directive[|named|] == '=' || directive[|named|] == '[')
  {
    if directive != [] {
      FirstStretch(directive[1..]);
    }
  }

  /** A directive is added for a target exactly once, when what was asked names neither it nor a module
      within it, and otherwise not at all. */
  lemma {:induction false} AddedExactlyOnce(asked: string, targets: seq<string>, target: string)
    requires forall i, j | 0 <= i < j < |targets| :: targets[i] != targets[j]
    ensures multiset(Added(asked, targets))[Held(target)] == if target in targets && !Names(asked, target) then 1 else 0
  {
    if targets != [] {
      var init, last := targets[..|targets| - 1], targets[|targets| - 1];
      hide Names;
      AddedExactlyOnce(asked, init, target);
      assert targets == init + [last];
      if Held(last) == Held(target) {
        assert Held(last)[..|last|] == last && Held(target)[..|target|] == target;
      }
    }
  }

  lemma FlooredAreDistinct()
    ensures forall i, j | 0 <= i < j < |FLOORED| :: FLOORED[i] != FLOORED[j]
  {
    assert FLOORED[0][0] == FLOORED[1][0] == FLOORED[2][0] == 'o';
    assert FLOORED[1][14] == 's' && FLOORED[2][14] == 'o';
    assert |FLOORED[0]| == 13 && |FLOORED[1]| == 17 && |FLOORED[2]| == 18;
    assert |FLOORED[3]| == 5 && |FLOORED[4]| == 5 && |FLOORED[5]| == 5 && |FLOORED[6]| == 10 && |FLOORED[7]| == 2;
    assert FLOORED[3][1] == 'o' && FLOORED[4][1] == 'o' && FLOORED[5][1] == 'y';
    assert FLOORED[3][2] == 'n' && FLOORED[4][2] == 'w';
    assert |FLOORED[8]| == 7 && |FLOORED[9]| == 6;
  }

  /** Of a floored crate's directive the result holds one more than was asked for, or as many when the
      text names the crate or a module in it already. */
  lemma FlooredOnce(asked: string, directives: string, target: string)
    requires Directives(directives) == Directives(asked) + Added(asked, FLOORED) && target in FLOORED
    ensures multiset(Directives(directives))[Held(target)] ==
              multiset(Directives(asked))[Held(target)] + if Names(asked, target) then 0 else 1
  {
    hide Names, Directives, Added;
    FlooredAreDistinct();
    AddedExactlyOnce(asked, FLOORED, target);
  }

  /** With every floored crate named there is nothing to add. */
  lemma {:induction false} NothingToAdd(asked: string, targets: seq<string>)
    requires forall t | t in targets :: Names(asked, t)
    ensures Added(asked, targets) == []
  {
    if targets != [] {
      NothingToAdd(asked, targets[..|targets| - 1]);
    }
  }

  lemma {:induction false} AddedHolds(asked: string, targets: seq<string>, target: string)
    requires target in targets && !Names(asked, target)
    ensures Held(target) in Added(asked, targets)
  {
    hide Names;
    var init, last := targets[..|targets| - 1], targets[|targets| - 1];
    if target != last {
      AddedHolds(asked, init, target);
    }
  }

  /** Whatever is asked, the result names every floored crate. */
  lemma ResultNamesAll(asked: string, directives: string, target: string)
    requires Directives(directives) == Directives(asked) + Added(asked, FLOORED)
    requires target in FLOORED
    ensures Names(directives, target)
  {
    hide DirectiveNames;
    if Names(asked, target) {
      var directive :| directive in Directives(asked) && DirectiveNames(directive, target);
      assert directive in Directives(directives);
    } else {
      AddedHolds(asked, FLOORED, target);
      assert Held(target) in Directives(directives);
      HeldNamesItsTarget(target);
    }
  }

  lemma HeldNamesItsTarget(target: string)
    requires target in FLOORED
    ensures DirectiveNames(Held(target), target)
  {
    FlooredArePlain(target);
    HeldIsOneDirective(target);
  }

  /** Flooring what was floored changes nothing. */
  lemma FlooredTwice(asked: string, once: string, twice: string)
    requires Directives(once) == Directives(asked) + Added(asked, FLOORED)
    requires Directives(twice) == Directives(once) + Added(once, FLOORED)
    ensures twice == once
  {
    hide Names, Directives, Added;
    forall t | t in FLOORED ensures Names(once, t) {
      ResultNamesAll(asked, once, t);
    }
    NothingToAdd(once, FLOORED);
    Empty(Directives(once));
    SplitIsOneToOne(once, twice);
  }

  /** Two texts with the same directives are the same. */
  lemma SplitIsOneToOne(a: string, b: string)
    requires Directives(a) == Directives(b)
    ensures a == b
  {
    JoinedSplit(a, ',', IsComma);
    JoinedSplit(b, ',', IsComma);
  }
}
