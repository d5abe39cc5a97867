/** The floors' own rules: shares judged and printed exactly, production files found by a work list, and
    test code looked for in them. */
module Floors {
  import opened Text
  import opened Order

  // ----- a share against a floor -----

  datatype Standing = Met | NothingToMeasure | NothingMeasured | Below

  datatype Line = Line(hit: nat, total: nat, floor: nat, holdsCode: bool) {
    function Standing(): Standing {
      if total == 0 && holdsCode then NothingMeasured
      else if total == 0 then NothingToMeasure
      else if hit * 100 >= floor * total then Met
      else Below
    }

    /** The share in thousandths, cut off below. */
    function Tenths(): nat
      requires total > 0
    {
      hit * 1000 / total
    }

    /** The share as it's printed: a number, a point and a digit. */
    function Printed(): string
      requires total > 0
    {
      Show(Tenths() / 10) + "." + Show(Tenths() % 10)
    }
  }

  /** Without anything to measure it turns on whether there's code; otherwise on the share, as an exact fraction. */
  lemma StandingsAre(line: Line)
    ensures line.Standing() == NothingMeasured <==> line.total == 0 && line.holdsCode
    ensures line.Standing() == NothingToMeasure <==> line.total == 0 && !line.holdsCode
    ensures line.Standing() == Met <==>
              line.total > 0 && line.hit as real / line.total as real >= line.floor as real / 100.0
  {
    if line.total > 0 {
      FractionsCompare(line.hit, line.total, line.floor);
    }
  }

  lemma FractionsCompare(hit: nat, total: nat, floor: nat)
    requires total > 0
    ensures hit as real / total as real >= floor as real / 100.0 <==> hit * 100 >= floor * total
  {
    var share, t, f := hit as real / total as real, total as real, floor as real / 100.0;
    assert share * t == hit as real && f * 100.0 == floor as real;
    assert share >= f <==> share * t >= f * t by {
      if share >= f {
        assert (share - f) * t >= 0.0;
      } else {
        assert (f - share) * t > 0.0;
      }
    }
    assert f * t * 100.0 == floor as real * t == (floor * total) as real;
  }

  /** The tenths a printed share reads as. */
  function ReadTenths(printed: string): Option<nat> {
    match SplitOnce(printed, ".")
    case None => None
    case Some((whole, tenth)) =>
      if IsNumber(whole) && IsNumber(tenth) then Some(Read(whole) * 10 + Read(tenth)) else None
  }

  lemma DivisionReaches(x: nat, t: nat, k: nat)
    requires t > 0
    ensures x / t >= k <==> x >= k * t
  {
    var q, r := x / t, x % t;
    assert x == q * t + r && r < t;
    if q >= k {
      assert q * t >= k * t;
    } else {
      assert (q + 1) * t <= k * t;
    }
  }

  /** What is printed for a line reads at or above its floor exactly when the line is judged to meet it. */
  lemma AMissNeverReadsAsTheFloor(line: Line)
    requires line.total > 0
    ensures ReadTenths(line.Printed()) == Some(line.Tenths())
    ensures line.Tenths() >= 10 * line.floor <==> line.Standing() == Met
  {
    hide Show, ReadTenths;
    ReadsAsPrinted(line.Tenths());
    TenthsReachTheFloor(line);
  }

  lemma TenthsReachTheFloor(line: Line)
    requires line.total > 0
    ensures line.Tenths() >= 10 * line.floor <==> line.Standing() == Met
  {
    DivisionReaches(line.hit * 1000, line.total, 10 * line.floor);
    assert 10 * line.floor * line.total == 10 * (line.floor * line.total);
  }

  lemma ReadsAsPrinted(tenths: nat)
    ensures ReadTenths(Show(tenths / 10) + "." + Show(tenths % 10)) == Some(tenths)
  {
    hide Show, SplitOnce, Read;
    var whole, tenth := Show(tenths / 10), Show(tenths % 10);
    NumberHoldsNo(whole, '.');
    SplitOnceChar(whole, '.', tenth);
    ReadShow(tenths / 10);
    ReadShow(tenths % 10);
  }

  // ----- production sources -----

  type Path = seq<string>

  /** What's on disk: a file, a directory that can be read, or one that can't. */
  datatype Tree = File | Dir(entries: seq<Entry>) | Closed

  datatype Entry = Entry(name: string, tree: Tree)

  predicate IsTestName(name: string) { name == "tests" || name == "tests.rs" }

  /** A name with the extension `rs`, which a name that is nothing else is not. */
  predicate IsRust(name: string) { |name| > 3 && name[|name| - 3..] == ".rs" }

  /** The production files at and under `path`, as a bag. */
  ghost function Sources(path: Path, name: string, tree: Tree): multiset<Path>
    decreases tree, 0
  {
    if IsTestName(name) then multiset{}
    else
      match tree
      case File => if IsRust(name) then multiset{path} else multiset{}
      case Dir(entries) => SourcesIn(path, entries)
      case Closed => multiset{}
  }

  ghost function SourcesIn(path: Path, entries: seq<Entry>): multiset<Path>
    decreases entries, 1
  {
    if entries == [] then multiset{}
    else
      var last := entries[|entries| - 1];
      SourcesIn(path, entries[..|entries| - 1]) + Sources(path + [last.name], last.name, last.tree)
  }

  /** Whether a directory that can't be read is come to. */
  predicate MeetsClosed(name: string, tree: Tree)
    decreases tree
  {
    !IsTestName(name) &&
    match tree
    case File => false
    case Closed => true
    case Dir(entries) => exists i | 0 <= i < |entries| :: MeetsClosed(entries[i].name, entries[i].tree)
  }

  datatype Pending = Pending(path: Path, name: string, tree: Tree)

  ghost function SourcesOf(pending: seq<Pending>): multiset<Path> {
    if pending == [] then multiset{}
    else
      var last := pending[|pending| - 1];
      SourcesOf(pending[..|pending| - 1]) + Sources(last.path, last.name, last.tree)
  }

  function Expanded(path: Path, entries: seq<Entry>): seq<Pending> {
    seq(|entries|, i requires 0 <= i < |entries| => Pending(path + [entries[i].name], entries[i].name, entries[i].tree))
  }

  lemma {:induction false} SourcesOfConcat(a: seq<Pending>, b: seq<Pending>)
    ensures SourcesOf(a + b) == SourcesOf(a) + SourcesOf(b)
  {
    hide Sources;
    if b == [] {
      Empty(a);
    } else {
      assert (a + b)[..|a + b| - 1] == a + b[..|b| - 1];
      SourcesOfConcat(a, b[..|b| - 1]);
    }
  }

  lemma {:induction false} SourcesOfExpanded(path: Path, entries: seq<Entry>)
    ensures SourcesOf(Expanded(path, entries)) == SourcesIn(path, entries)
  {
    hide Sources;
    if entries != [] {
      var last := |entries| - 1;
      assert Expanded(path, entries)[..last] == Expanded(path, entries[..last]);
      SourcesOfExpanded(path, entries[..last]);
    }
  }

  /** How much is left to look at. */
  ghost function Size(tree: Tree): nat
    decreases tree, 0
  {
    match tree
    case Dir(entries) => 1 + SizeIn(entries)
    case _ => 1
  }

  ghost function SizeIn(entries: seq<Entry>): nat
    decreases entries, 1
  {
    if entries == [] then 0 else SizeIn(entries[..|entries| - 1]) + Size(entries[|entries| - 1].tree)
  }

  ghost function SizeOf(pending: seq<Pending>): nat {
    if pending == [] then 0 else SizeOf(pending[..|pending| - 1]) + Size(pending[|pending| - 1].tree)
  }

  lemma {:induction false} SizeOfConcat(a: seq<Pending>, b: seq<Pending>)
    ensures SizeOf(a + b) == SizeOf(a) + SizeOf(b)
  {
    hide Size;
    if b == [] {
      Empty(a);
    } else {
      assert (a + b)[..|a + b| - 1] == a + b[..|b| - 1];
      SizeOfConcat(a, b[..|b| - 1]);
    }
  }

  lemma {:induction false} SizeOfExpanded(path: Path, entries: seq<Entry>)
    ensures SizeOf(Expanded(path, entries)) == SizeIn(entries)
  {
    hide Size;
    if entries != [] {
      var last := |entries| - 1;
      assert Expanded(path, entries)[..last] == Expanded(path, entries[..last]);
      SizeOfExpanded(path, entries[..last]);
    }
  }

  /** The files a work list finds are those the tree holds, each as often, and sorted; a directory that
      can't be read, and a root that is none, fail it. */
  method ProductionSources(src: Path, name: string, tree: Tree) returns (files: Option<seq<Path>>)
    ensures files.None? <==> MeetsClosed(name, tree) || (tree.File? && !IsTestName(name))
    ensures files.Some? ==> multiset(files.value) == Sources(src, name, tree)
    ensures files.Some? ==> IsSorted(files.value, PathBefore)
  {
    hide Sources, SourcesIn, Size, SizeIn, MeetsClosed;
    if IsTestName(name) {
      TestsHoldNothing(src, name, tree);
      return Some([]);
    }
    if !tree.Dir? {
      NotADirectory(src, name, tree);
      return None;
    }
    var found: seq<Path> := [];
    var pending := [Pending(src, name, tree)];
    OnlyOne(pending[0]);
    while pending != []
      invariant multiset(found) + SourcesOf(pending) == Sources(src, name, tree)
      invariant MeetsClosed(name, tree) <==> exists p | p in pending :: MeetsClosed(p.name, p.tree)
      decreases SizeOf(pending)
    {
      var last := |pending| - 1;
      var p := pending[last];
      ghost var before := pending;
      pending := pending[..last];
      assert before == pending + [p];
      Looked(p);
      if IsTestName(p.name) {
        continue;
      }
      match p.tree {
        case Dir(entries) =>
          SourcesOfConcat(pending, Expanded(p.path, entries));
          SourcesOfExpanded(p.path, entries);
          SizeOfConcat(pending, Expanded(p.path, entries));
          SizeOfExpanded(p.path, entries);
          ClosedExpanded(p.path, entries);
          pending := pending + Expanded(p.path, entries);
        case File =>
          if IsRust(p.name) {
            found := found + [p.path];
          }
        case Closed =>
          return None;
      }
    }
    PathsAreOrdered();
    SortedHolds(found, PathBefore);
    files := Some(Sorted(found, PathBefore));
  }

  lemma TestsHoldNothing(path: Path, name: string, tree: Tree)
    requires IsTestName(name)
    ensures Sources(path, name, tree) == multiset{} && !MeetsClosed(name, tree)
  {}

  lemma NotADirectory(path: Path, name: string, tree: Tree)
    requires !IsTestName(name) && !tree.Dir?
    ensures MeetsClosed(name, tree) <==> tree.Closed?
  {}

  lemma OnlyOne(p: Pending)
    ensures SourcesOf([p]) == Sources(p.path, p.name, p.tree)
  {
    assert [p][..0] == [] && SourcesOf([]) == multiset{};
    assert multiset{} + Sources(p.path, p.name, p.tree) == Sources(p.path, p.name, p.tree);
  }

  /** What looking at one entry comes to. */
  lemma Looked(p: Pending)
    ensures Size(p.tree) >= 1
    ensures IsTestName(p.name) ==> Sources(p.path, p.name, p.tree) == multiset{} && !MeetsClosed(p.name, p.tree)
    ensures !IsTestName(p.name) ==>
              match p.tree
              case Dir(entries) =>
                && Sources(p.path, p.name, p.tree) == SourcesIn(p.path, entries)
                && Size(p.tree) == 1 + SizeIn(entries)
                && (MeetsClosed(p.name, p.tree)
                    <==> exists i | 0 <= i < |entries| :: MeetsClosed(entries[i].name, entries[i].tree))
              case File =>
                && Sources(p.path, p.name, p.tree) == (if IsRust(p.name) then multiset{p.path} else multiset{})
                && !MeetsClosed(p.name, p.tree)
              case Closed => MeetsClosed(p.name, p.tree)
  {}

  lemma ClosedExpanded(path: Path, entries: seq<Entry>)
    ensures (exists i | 0 <= i < |entries| :: MeetsClosed(entries[i].name, entries[i].tree))
       <==> exists p | p in Expanded(path, entries) :: MeetsClosed(p.name, p.tree)
  {
    hide MeetsClosed;
    var expanded := Expanded(path, entries);
    if i :| 0 <= i < |entries| && MeetsClosed(entries[i].name, entries[i].tree) {
      assert expanded[i] in expanded;
    }
  }

  // ----- which files those are -----

  /** `below` leads from `tree` to a file. */
  ghost predicate LeadsToFile(tree: Tree, below: Path) {
    if below == [] then tree == File
    else tree.Dir? && exists i | 0 <= i < |tree.entries| ::
      tree.entries[i].name == below[0] && LeadsToFile(tree.entries[i].tree, below[1..])
  }

  /** A Rust file that's come to without passing tests. */
  ghost predicate IsProduction(name: string, tree: Tree, below: Path) {
    && LeadsToFile(tree, below)
    && (forall c | c in [name] + below :: c != "tests" && c != "tests.rs")
    && exists stem: string :: stem != "" && ([name] + below)[|below|] == stem + ".rs"
  }

  lemma NotThroughTests(name: string, tree: Tree, below: Path)
    requires IsTestName(name)
    ensures !IsProduction(name, tree, below)
  {
    assert name == ([name] + below)[0];
    assert name in [name] + below;
  }

  /** A Rust file has something ahead of its extension. */
  lemma RustFilesAre(name: string)
    ensures IsRust(name) <==> exists stem: string :: stem != "" && name == stem + ".rs"
  {
    if IsRust(name) {
      var stem := name[..|name| - 3];
      assert stem != "" && name == stem + ".rs";
    }
    if stem: string :| stem != "" && name == stem + ".rs" {
      assert name[|name| - 3..] == ".rs";
    }
  }

  lemma TheFileItself(src: Path, name: string, p: Path)
    requires !IsTestName(name)
    ensures IsRust(name) && p == src <==> exists below: Path :: p == src + below && IsProduction(name, File, below)
  {
    Empty(src);
    RustFilesAre(name);
    assert [name] + [] == [name];
    assert IsRust(name) ==> IsProduction(name, File, []);
  }

  lemma {:induction false} EveryProductionFile(src: Path, name: string, tree: Tree, p: Path)
    ensures p in Sources(src, name, tree) <==> exists below: Path :: p == src + below && IsProduction(name, tree, below)
    decreases tree, 0
  {
    if IsTestName(name) {
      forall below: Path ensures !IsProduction(name, tree, below) {
        NotThroughTests(name, tree, below);
      }
    } else {
      match tree
      case File =>
        TheFileItself(src, name, p);
      case Closed =>
      case Dir(entries) =>
        EveryFileIn(src, entries, p);
        hide Sources, SourcesIn;
        if i: nat, below: Path :| i < |entries| && p == src + [entries[i].name] + below
                                  && IsProduction(entries[i].name, entries[i].tree, below) {
          Deeper(name, entries, i, below);
          Assoc(src, [entries[i].name], below);
        }
        if below: Path :| p == src + below && IsProduction(name, tree, below) {
          var i := Shallower(name, entries, below);
          assert below == [entries[i].name] + below[1..];
          Assoc(src, [entries[i].name], below[1..]);
        }
    }
  }

  lemma Deeper(name: string, entries: seq<Entry>, i: nat, below: Path)
    requires i < |entries| && !IsTestName(name) && IsProduction(entries[i].name, entries[i].tree, below)
    ensures IsProduction(name, Dir(entries), [entries[i].name] + below)
  {
    var deeper := [entries[i].name] + below;
    assert deeper[1..] == below && deeper[0] == entries[i].name;
    assert ([name] + deeper)[|deeper|] == deeper[|below|];
    forall c | c in [name] + deeper ensures !IsTestName(c) {
      assert c == name || c in deeper;
    }
  }

  lemma Shallower(name: string, entries: seq<Entry>, below: Path) returns (i: nat)
    requires IsProduction(name, Dir(entries), below)
    ensures below != [] && i < |entries| && entries[i].name == below[0]
    ensures IsProduction(entries[i].name, entries[i].tree, below[1..])
  {
    i :| i < |entries| && entries[i].name == below[0] && LeadsToFile(entries[i].tree, below[1..]);
    assert [below[0]] + below[1..] == below;
    forall c | c in below ensures !IsTestName(c) {
      assert c in [name] + below;
    }
  }

  lemma {:induction false} EveryFileIn(src: Path, entries: seq<Entry>, p: Path)
    ensures p in SourcesIn(src, entries) <==>
      exists i: nat, below: Path :: i < |entries| && p == src + [entries[i].name] + below
                                    && IsProduction(entries[i].name, entries[i].tree, below)
    decreases entries, 1
  {
    if entries != [] {
      var last := |entries| - 1;
      EveryFileIn(src, entries[..last], p);
      EveryProductionFile(src + [entries[last].name], entries[last].name, entries[last].tree, p);
      hide Sources, IsProduction;
      assert forall i | 0 <= i < last :: entries[..last][i] == entries[i];
    }
  }

  /** No directory holds two entries of one name. */
  ghost predicate UniqueNames(tree: Tree)
    decreases tree
  {
    tree.Dir? ==>
      && (forall i, j | 0 <= i < j < |tree.entries| :: tree.entries[i].name != tree.entries[j].name)
      && (forall i | 0 <= i < |tree.entries| :: UniqueNames(tree.entries[i].tree))
  }

  /** Each production file is found once. */
  lemma {:induction false} EachFileOnce(src: Path, name: string, tree: Tree, p: Path)
    requires UniqueNames(tree)
    ensures Sources(src, name, tree)[p] <= 1
    decreases tree, 0
  {
    if tree.Dir? && !IsTestName(name) {
      EachOnceIn(src, tree.entries, p);
    }
  }

  lemma {:induction false} EachOnceIn(src: Path, entries: seq<Entry>, p: Path)
    requires forall i, j | 0 <= i < j < |entries| :: entries[i].name != entries[j].name
    requires forall i | 0 <= i < |entries| :: UniqueNames(entries[i].tree)
    ensures SourcesIn(src, entries)[p] <= 1
    decreases entries, 1
  {
    hide Sources, IsProduction, UniqueNames;
    if entries != [] {
      var init, last := entries[..|entries| - 1], entries[|entries| - 1];
      EachOnceIn(src, init, p);
      EachFileOnce(src + [last.name], last.name, last.tree, p);
      EveryFileIn(src, init, p);
      EveryProductionFile(src + [last.name], last.name, last.tree, p);
      if p in SourcesIn(src, init) {
        var i: nat, below: Path :| i < |init| && p == src + [init[i].name] + below
                                   && IsProduction(init[i].name, init[i].tree, below);
        assert p[|src|] == init[i].name == entries[i].name;
        forall below': Path ensures p != src + [last.name] + below' {
          assert (src + [last.name] + below')[|src|] == last.name;
        }
      }
    }
  }

  // ----- misplaced test code -----

  const CFG_TEST := "#[cfg(test)]"
  const MOD_TESTS := "mod tests;"

  /** An attribute that has `test` among its words, where `between` says what's between words. */
  predicate MentionsTest(line: string, between: char -> bool) {
    ("#[" <= line || "#![" <= line) && "test" in SplitWhere(line, between)
  }

  predicate IsSignificant(line: string) { !(line == "" || "//" <= line) }

  /** The first significant line from `at` on. */
  function NextSignificant(lines: seq<string>, at: nat): (r: Option<nat>)
    requires at <= |lines|
    ensures r.Some? ==> at <= r.value < |lines| && IsSignificant(lines[r.value])
    ensures r.Some? ==> forall i | at <= i < r.value :: !IsSignificant(lines[i])
    ensures r.None? ==> forall i | at <= i < |lines| :: !IsSignificant(lines[i])
    decreases |lines| - at
  {
    if at == |lines| then None
    else if IsSignificant(lines[at]) then Some(at)
    else NextSignificant(lines, at + 1)
  }

  /** What a `#[cfg(test)]` sits on: the rest of its line, or the next significant line; nothing for another
      attribute. */
  function ItemOf(lines: seq<string>, at: nat, space: char -> bool): Option<string>
    requires at < |lines|
  {
    if !(CFG_TEST <= lines[at]) then None
    else
      var rest := Trim(lines[at][|CFG_TEST|..], space);
      if rest != "" then Some(rest)
      else
        match NextSignificant(lines, at + 1)
        case None => None
        case Some(next) => Some(lines[next])
  }

  /** Whether a line is an attribute naming `test`, other than the one that may stand ahead of `mod tests;`. */
  predicate IsMisplaced(lines: seq<string>, at: nat, between: char -> bool, space: char -> bool)
    requires at < |lines|
  {
    MentionsTest(lines[at], between) && ItemOf(lines, at, space) != Some(MOD_TESTS)
  }

  /** Neither a blank line nor a comment nor `mod tests;` is an attribute. */
  lemma NoAttribute(line: string, between: char -> bool)
    requires !IsSignificant(line) || line == MOD_TESTS
    ensures !MentionsTest(line, between)
  {
    if "//" <= line {
      assert line[0] == '/';
    }
  }

  /** The lines of a source, each without its ending and the space around it. */
  function TrimmedLines(source: string, space: char -> bool): seq<string> {
    var lines := Lines(source);
    seq(|lines|, i requires 0 <= i < |lines| => Trim(lines[i], space))
  }

  /** A scan that consumes the lines it looks ahead at finds the least misplaced line, counted from one, and
      nothing only when there is none. */
  method MisplacedTestCode(source: string, between: char -> bool, space: char -> bool) returns (r: Option<nat>)
    ensures var lines := TrimmedLines(source, space);
            && (r.Some? ==> 1 <= r.value <= |lines| && IsMisplaced(lines, r.value - 1, between, space)
                            && forall i: nat | i < r.value - 1 :: !IsMisplaced(lines, i, between, space))
            && (r.None? ==> forall i: nat | i < |lines| :: !IsMisplaced(lines, i, between, space))
  {
    r := MisplacedLine(TrimmedLines(source, space), between, space);
  }

  method MisplacedLine(lines: seq<string>, between: char -> bool, space: char -> bool) returns (r: Option<nat>)
    ensures r.Some? ==> 1 <= r.value <= |lines| && IsMisplaced(lines, r.value - 1, between, space)
    ensures r.Some? ==> forall i: nat | i < r.value - 1 :: !IsMisplaced(lines, i, between, space)
    ensures r.None? ==> forall i: nat | i < |lines| :: !IsMisplaced(lines, i, between, space)
  {
    hide MentionsTest, IsSignificant, Trim;
    var next := 0;
    while next < |lines|
      invariant next <= |lines|
      invariant forall i: nat | i < next :: !IsMisplaced(lines, i, between, space)
    {
      var at := next;
      var line := lines[at];
      next := next + 1;
      if !MentionsTest(line, between) {
        continue;
      }
      var item: Option<string> := None;
      if CFG_TEST <= line {
        var rest := Trim(line[|CFG_TEST|..], space);
        if rest == "" {
          // The lines up to the item are consumed.
          while next < |lines| && !IsSignificant(lines[next])
            invariant at < next <= |lines|
            invariant forall i | at < i < next :: !IsSignificant(lines[i])
          {
            NoAttribute(lines[next], between);
            next := next + 1;
          }
          FirstIsNext(lines, at + 1, next);
          if next < |lines| {
            item := Some(lines[next]);
            next := next + 1;
          }
        } else {
          item := Some(rest);
        }
      }
      assert item == ItemOf(lines, at, space);
      if item != Some(MOD_TESTS) {
        return Some(at + 1);
      }
      forall i: nat | at < i < next ensures !MentionsTest(lines[i], between) {
        NoAttribute(lines[i], between);
      }
    }
    r := None;
  }

  lemma {:induction false} FirstIsNext(lines: seq<string>, from: nat, at: nat)
    requires from <= at <= |lines| && forall i | from <= i < at :: !IsSignificant(lines[i])
    requires at < |lines| ==> IsSignificant(lines[at])
    ensures NextSignificant(lines, from) == if at < |lines| then Some(at) else None
    decreases at - from
  {
    if from < at {
      FirstIsNext(lines, from + 1, at);
    }
  }
  // ----- misplaced, in plain terms -----

  /** A line to be passed over. */
  predicate IsBlankOrComment(line: string) { line == "" || (|line| >= 2 && line[0] == '/' && line[1] == '/') }

  /** The next line that's neither blank nor a comment is this one. */
  ghost predicate ComesNext(lines: seq<string>, at: nat, item: string) {
    exists k: nat | at < k < |lines| ::
      && lines[k] == item && !IsBlankOrComment(item)
      && forall i | at < i < k :: IsBlankOrComment(lines[i])
  }

  /** An attribute with the word `test`, save `#[cfg(test)]` right ahead of `mod tests;`, on its line or on the next
      that says something. */
  lemma MisplacedMeans(lines: seq<string>, at: nat, between: char -> bool, space: char -> bool)
    requires at < |lines|
    ensures IsMisplaced(lines, at, between, space) <==>
              && ("#[" <= lines[at] || "#![" <= lines[at])
              && (exists i: nat, j: nat :: StandsAlone(lines[at], between, "test", i, j))
              && !(exists rest ::
                     && lines[at] == "#[cfg(test)]" + rest
                     && (Trim(rest, space) == "mod tests;"
                         || (Trim(rest, space) == "" && ComesNext(lines, at, "mod tests;"))))
  {
    hide Trim, StandsAlone, SplitWhere;
    PartsAreStretches(lines[at], between, "test");
    if CFG_TEST <= lines[at] {
      var rest := lines[at][|CFG_TEST|..];
      assert lines[at] == CFG_TEST + rest;
      forall other | lines[at] == CFG_TEST + other ensures other == rest {
        Seam(CFG_TEST, other);
      }
      NextIs(lines, at);
    } else {
      forall rest ensures lines[at] != CFG_TEST + rest {
        Seam(CFG_TEST, rest);
      }
    }
  }

  lemma NextIs(lines: seq<string>, at: nat)
    requires at < |lines|
    ensures ComesNext(lines, at, MOD_TESTS) <==>
              NextSignificant(lines, at + 1).Some? && lines[NextSignificant(lines, at + 1).value] == MOD_TESTS
  {
    forall line: string ensures IsSignificant(line) <==> !IsBlankOrComment(line) {
      assert |line| >= 2 ==> line[..2] == [line[0], line[1]];
    }
    if k: nat :| at < k < |lines| && lines[k] == MOD_TESTS && !IsBlankOrComment(MOD_TESTS)
                 && forall i | at < i < k :: IsBlankOrComment(lines[i])
    {
      FirstIsNext(lines, at + 1, k);
    }
  }
}
