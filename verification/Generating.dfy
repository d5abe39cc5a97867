/** `generate` and `generate --check`: the routing, the rendering into a stage, and that a write is followed
    by a check that passes. */
module Generating {
  import opened Text
  import opened FileTree
  import opened GeneratedTrees
  import opened Installing
  import opened Order

  // ----- routing -----

  predicate NothingWanted(p: Path) { false }

  predicate IsGenerated(p: Path) { EndsWith(p, GENERATED) }

  predicate IsYaml(p: Path) {
    p != [] && |p[|p| - 1]| > 5 && p[|p| - 1][|p[|p| - 1]| - 5..] == ".yaml"
  }

  /** What doesn't match between the registry and the modules, in the order it's told: folders no module is
      rendered from, modules whose folder holds no registry file, and under each root of crates the generated
      directories no module writes. */
  datatype Gaps = Gaps(unrendered: seq<Path>, empty: seq<Path>, stray: seq<seq<Path>>) {
    predicate AreNone() { unrendered == [] && empty == [] && forall k | 0 <= k < |stray| :: stray[k] == [] }
  }

  /** The folder of a registry file that's a module's, when it is. */
  predicate IsModules(p: Path) {
    && REGISTRY < p && IsYaml(p) && |REGISTRY| < |p| - 1
    && p[|REGISTRY|] != "shared"
  }

  function FolderOf(p: Path): Path
    requires IsModules(p)
  {
    p[|REGISTRY|..|p| - 1]
  }

  function CrateDirs(outputs: seq<Output>): set<Path> {
    set o | o in outputs && o.crateDir.Some? :: o.crateDir.value
  }

  function TreesOf(outputs: seq<Output>): set<Path> {
    set o | o in outputs :: o.tree
  }

  ghost function Folders(nodes: Nodes): set<Path> {
    set p | p in nodes && IsModules(p) && Reached(nodes, REGISTRY, NothingWanted, p) :: FolderOf(p)
  }

  /** The modules' folders that aren't among `folders`, in the order of the outputs. */
  function Empties(outputs: seq<Output>, folders: set<Path>): seq<Path> {
    if outputs == [] then []
    else
      var last := |outputs| - 1;
      var dir := outputs[last].crateDir;
      Empties(outputs[..last], folders) + if dir.Some? && dir.value !in folders then [dir.value] else []
  }

  lemma {:induction false} EmptiesHold(outputs: seq<Output>, folders: set<Path>)
    ensures forall d :: d in Empties(outputs, folders) <==> d in CrateDirs(outputs) - folders
  {
    if outputs != [] {
      var last := |outputs| - 1;
      EmptiesHold(outputs[..last], folders);
      assert outputs == outputs[..last] + [outputs[last]];
    }
  }

  ghost predicate IsStray(nodes: Nodes, outputs: seq<Output>, root: Path, p: Path) {
    p in nodes && nodes[p].Dir? && p !in TreesOf(outputs) && Reached(nodes, root, IsGenerated, p)
  }

  ghost function Strays(nodes: Nodes, outputs: seq<Output>, root: Path): set<Path> {
    set p | p in nodes && IsStray(nodes, outputs, root, p)
  }

  ghost predicate AreGaps(nodes: Nodes, outputs: seq<Output>, gaps: Gaps) {
    && Lists(gaps.unrendered, Folders(nodes) - CrateDirs(outputs), ByName)
    && gaps.empty == Empties(outputs, Folders(nodes))
    && AreStrays(nodes, outputs, CRATE_ROOTS, gaps.stray)
  }

  ghost predicate AreStrays(nodes: Nodes, outputs: seq<Output>, roots: seq<Path>, stray: seq<seq<Path>>) {
    && |stray| == |roots|
    && forall k | 0 <= k < |roots| :: Lists(stray[k], Strays(nodes, outputs, roots[k]), PathBefore)
  }

  /** Every folder of the registry has a module rendered from it, every module a folder, and every generated
      directory a module that writes it. */
  ghost predicate IsRouted(nodes: Nodes, outputs: seq<Output>) {
    Folders(nodes) == CrateDirs(outputs) && forall root | root in CRATE_ROOTS :: Strays(nodes, outputs, root) == {}
  }

  lemma NothingBeyond(a: set<Path>, b: set<Path>)
    ensures a - b == {} <==> a <= b
  {
    if a - b == {} {
      forall x | x in a ensures x in b {
        assert x !in a - b;
      }
    }
  }

  lemma NoGaps(nodes: Nodes, outputs: seq<Output>, gaps: Gaps)
    requires AreGaps(nodes, outputs, gaps)
    ensures gaps.AreNone() <==> IsRouted(nodes, outputs)
  {
    hide Folders, Strays, Lists, CrateDirs, Empties;
    NothingListed(gaps.unrendered, Folders(nodes) - CrateDirs(outputs), ByName);
    NothingBeyond(Folders(nodes), CrateDirs(outputs));
    NoEmpties(outputs, Folders(nodes));
    forall k | 0 <= k < |CRATE_ROOTS| ensures gaps.stray[k] == [] <==> Strays(nodes, outputs, CRATE_ROOTS[k]) == {} {
      NothingListed(gaps.stray[k], Strays(nodes, outputs, CRATE_ROOTS[k]), PathBefore);
    }
    assert forall k | 0 <= k < |CRATE_ROOTS| :: CRATE_ROOTS[k] in CRATE_ROOTS;
  }

  lemma NoEmpties(outputs: seq<Output>, folders: set<Path>)
    ensures Empties(outputs, folders) == [] <==> CrateDirs(outputs) <= folders
  {
    hide CrateDirs;
    EmptiesHold(outputs, folders);
    if Empties(outputs, folders) != [] {
      assert Empties(outputs, folders)[0] in CrateDirs(outputs) - folders;
    } else {
      forall d | d in CrateDirs(outputs) ensures d in folders {
        assert d !in Empties(outputs, folders);
      }
    }
  }

  /** Where a directory is looked for there's a file. */
  predicate CantBeRouted(nodes: Nodes) {
    IsFile(nodes, REGISTRY) || exists root | root in CRATE_ROOTS :: IsFile(nodes, root)
  }

  method Routing(nodes: Nodes, outputs: seq<Output>) returns (r: Option<Gaps>)
    requires WellFormed(nodes)
    ensures r.None? <==> CantBeRouted(nodes)
    ensures r.Some? ==> AreGaps(nodes, outputs, r.value)
    ensures r.Some? ==> (r.value.AreNone() <==> IsRouted(nodes, outputs))
  {
    hide WellFormed, Reached, Lists, Compares, AreGaps, IsRouted;
    var files := Walk(nodes, REGISTRY, NothingWanted);
    if files.None? {
      return None;
    }
    ReachedAreThere(nodes, REGISTRY, NothingWanted);
    var folders := set p | p in files.value && IsModules(p) :: FolderOf(p);
    assert folders == Folders(nodes);
    NamesCompare();
    var unrendered := Listed(folders - CrateDirs(outputs), ByName);
    var empty := [];
    assert outputs[..0] == [];
    for i := 0 to |outputs|
      invariant empty == Empties(outputs[..i], folders)
    {
      var dir := outputs[i].crateDir;
      EmptiesOneMore(outputs, i, folders);
      if dir.Some? && dir.value !in folders {
        empty := empty + [dir.value];
      }
    }
    assert outputs[..|outputs|] == outputs;
    var stray := StraysUnder(nodes, outputs);
    if stray.None? {
      return None;
    }
    var gaps := Gaps(unrendered, empty, stray.value);
    GapsAre(nodes, outputs, gaps);
    NoGaps(nodes, outputs, gaps);
    r := Some(gaps);
  }

  lemma GapsAre(nodes: Nodes, outputs: seq<Output>, gaps: Gaps)
    requires Lists(gaps.unrendered, Folders(nodes) - CrateDirs(outputs), ByName)
    requires gaps.empty == Empties(outputs, Folders(nodes))
    requires AreStrays(nodes, outputs, CRATE_ROOTS, gaps.stray)
    ensures AreGaps(nodes, outputs, gaps)
  {}

  lemma EmptiesOneMore(outputs: seq<Output>, i: nat, folders: set<Path>)
    requires i < |outputs|
    ensures var dir := outputs[i].crateDir;
            Empties(outputs[..i + 1], folders)
            == Empties(outputs[..i], folders) + if dir.Some? && dir.value !in folders then [dir.value] else []
  {
    assert outputs[..i + 1][..i] == outputs[..i];
  }

  /** The generated directories no module writes, root by root. */
  method StraysUnder(nodes: Nodes, outputs: seq<Output>) returns (stray: Option<seq<seq<Path>>>)
    requires WellFormed(nodes)
    ensures stray.None? <==> exists root | root in CRATE_ROOTS :: IsFile(nodes, root)
    ensures stray.Some? ==> AreStrays(nodes, outputs, CRATE_ROOTS, stray.value)
  {
    hide WellFormed, Reached, Lists, Compares;
    PathsCompare();
    var found: seq<seq<Path>> := [];
    for i := 0 to |CRATE_ROOTS|
      invariant forall k | 0 <= k < i :: !IsFile(nodes, CRATE_ROOTS[k])
      invariant AreStrays(nodes, outputs, CRATE_ROOTS[..i], found)
    {
      var generated := Walk(nodes, CRATE_ROOTS[i], IsGenerated);
      if generated.None? {
        assert CRATE_ROOTS[i] in CRATE_ROOTS && IsFile(nodes, CRATE_ROOTS[i]);
        return None;
      }
      ReachedAreThere(nodes, CRATE_ROOTS[i], IsGenerated);
      var unwritten := set p | p in generated.value && nodes[p].Dir? && p !in TreesOf(outputs);
      assert unwritten == Strays(nodes, outputs, CRATE_ROOTS[i]);
      var listed := Listed(unwritten, PathBefore);
      found := found + [listed];
    }
    forall root | root in CRATE_ROOTS ensures !IsFile(nodes, root) {
      var k :| 0 <= k < |CRATE_ROOTS| && CRATE_ROOTS[k] == root;
    }
    assert CRATE_ROOTS[..|CRATE_ROOTS|] == CRATE_ROOTS;
    stray := Some(found);
  }

  lemma PathsCompare()
    ensures Compares(PathBefore)
  {
    PathsAreOrdered();
  }

  lemma ReachedAreThere(nodes: Nodes, d: Path, wanted: Path -> bool)
    ensures forall p | Reached(nodes, d, wanted, p) :: p in nodes
  {}

  // ----- what's routed, in plain terms -----

  /** `f` holds a registry file that's a module's: one named `.yaml` with something ahead of it, no build
      directory above it, in a folder that's neither the registry's root nor in `shared`. */
  ghost predicate HoldsRegistryFiles(nodes: Nodes, f: Path) {
    && f != [] && f[0] != "shared" && "target" !in f
    && exists name: string ::
         && |name| > 5 && name[|name| - 5..] == ".yaml"
         && IsFile(nodes, ["lablet", "telemetry", "registry"] + f + [name])
  }

  /** A directory under `root` named as the generated ones are, none such and no build directory above it. */
  ghost predicate IsGeneratedUnder(nodes: Nodes, root: Path, p: Path) {
    && IsDir(nodes, p) && root < p && EndsAs(p)
    && forall i | |root| < i < |p| :: !EndsAs(p[..i]) && p[i - 1] != "target"
  }

  predicate EndsAs(p: Path) {
    |p| >= 3 && p[|p| - 3] == "src" && p[|p| - 2] == "telemetry" && p[|p| - 1] == "generated"
  }

  lemma GeneratedEndsAs(p: Path)
    ensures IsGenerated(p) <==> EndsAs(p)
  {
    if |p| >= 3 {
      assert p[|p| - 3..] == [p[|p| - 3], p[|p| - 2], p[|p| - 1]];
    }
  }

  lemma FoldersHoldRegistryFiles(nodes: Nodes, f: Path)
    ensures f in Folders(nodes) <==> HoldsRegistryFiles(nodes, f)
  {
    if f in Folders(nodes) {
      var p :| p in nodes && IsModules(p) && Reached(nodes, REGISTRY, NothingWanted, p) && FolderOf(p) == f;
      FileOfAFolder(nodes, f, p);
    }
    if HoldsRegistryFiles(nodes, f) {
      var name: string :| |name| > 5 && name[|name| - 5..] == ".yaml"
                          && IsFile(nodes, ["lablet", "telemetry", "registry"] + f + [name]);
      FolderOfAFile(nodes, f, name);
    }
  }

  lemma FileOfAFolder(nodes: Nodes, f: Path, p: Path)
    requires p in nodes && IsModules(p) && Reached(nodes, REGISTRY, NothingWanted, p) && FolderOf(p) == f
    ensures HoldsRegistryFiles(nodes, f)
  {
    var name := p[|p| - 1];
    assert REGISTRY == ["lablet", "telemetry", "registry"];
    assert p == ["lablet", "telemetry", "registry"] + f + [name];
    forall k | 0 <= k < |f| ensures f[k] != "target" {
      var i := 4 + k;
      assert !NothingWanted(p[..i]) && f[k] == p[i - 1];
    }
  }

  lemma FolderOfAFile(nodes: Nodes, f: Path, name: string)
    requires f != [] && f[0] != "shared" && "target" !in f && |name| > 5 && name[|name| - 5..] == ".yaml"
    requires IsFile(nodes, ["lablet", "telemetry", "registry"] + f + [name])
    ensures f in Folders(nodes)
  {
    var p := ["lablet", "telemetry", "registry"] + f + [name];
    assert p[..3] == REGISTRY && p[3..|p| - 1] == f && p[3] == f[0];
    forall i | 3 < i < |p| ensures !NothingWanted(p[..i]) && p[i - 1] != "target" {
      assert p[i - 1] == f[i - 4];
    }
    assert IsModules(p) && FolderOf(p) == f;
  }

  lemma StraysAreGenerated(nodes: Nodes, outputs: seq<Output>, root: Path, p: Path)
    ensures p in Strays(nodes, outputs, root)
       <==> IsGeneratedUnder(nodes, root, p) && forall o | o in outputs :: o.tree != p
  {
    hide IsGenerated, EndsAs;
    GeneratedEndsAs(p);
    forall i | |root| < i < |p| ensures IsGenerated(p[..i]) <==> EndsAs(p[..i]) {
      GeneratedEndsAs(p[..i]);
    }
  }

  /** A registry is routed exactly when the folders that hold its files are those the modules come from, and
      every generated directory of the crates and apps is an output's. */
  lemma RoutedMeans(nodes: Nodes, outputs: seq<Output>)
    ensures IsRouted(nodes, outputs) <==>
              && (forall f :: HoldsRegistryFiles(nodes, f) <==> exists o | o in outputs :: o.crateDir == Some(f))
              && forall p | IsGeneratedUnder(nodes, ["lablet", "crates"], p)
                            || IsGeneratedUnder(nodes, ["lablet", "apps"], p) ::
                   exists o | o in outputs :: o.tree == p
  {
    hide HoldsRegistryFiles, IsGeneratedUnder, Folders, Strays;
    var crates, apps: Path := ["lablet", "crates"], ["lablet", "apps"];
    assert CRATE_ROOTS[0] == crates && CRATE_ROOTS[1] == apps;
    forall f ensures f in Folders(nodes) <==> HoldsRegistryFiles(nodes, f) {
      FoldersHoldRegistryFiles(nodes, f);
    }
    forall f ensures f in CrateDirs(outputs) <==> exists o | o in outputs :: o.crateDir == Some(f) {
      if o :| o in outputs && o.crateDir == Some(f) {
        assert o.crateDir.value in CrateDirs(outputs);
      }
    }
    forall root, p ensures p in Strays(nodes, outputs, root)
                      <==> IsGeneratedUnder(nodes, root, p) && forall o | o in outputs :: o.tree != p {
      StraysAreGenerated(nodes, outputs, root, p);
    }
    NoneIn(Strays(nodes, outputs, crates));
    NoneIn(Strays(nodes, outputs, apps));
  }

  /** With the outputs there are, a registry is routed exactly when `application/run` is the one folder of a module
      and the run's own the one generated directory of the crates and apps, if there is one. */
  lemma TheRegistryIsRouted(nodes: Nodes)
    ensures IsRouted(nodes, OUTPUTS) <==>
              && (forall f :: HoldsRegistryFiles(nodes, f) <==> f == ["application", "run"])
              && forall p | IsGeneratedUnder(nodes, ["lablet", "crates"], p)
                            || IsGeneratedUnder(nodes, ["lablet", "apps"], p) ::
                   p == ["lablet", "crates", "application", "run", "src", "telemetry", "generated"]
  {
    hide HoldsRegistryFiles, IsRouted;
    RoutedMeans(nodes, OUTPUTS);
    assert OUTPUTS[0].crateDir == Some(["application", "run"]) && OUTPUTS[1].crateDir == None;
    assert OUTPUTS[1].tree == ["lablet", "docs", "telemetry"] && "telemetry"[0] == 't' && "generated"[0] == 'g';
    assert !EndsAs(OUTPUTS[1].tree);
  }

  lemma NoneIn(paths: set<Path>)
    ensures paths == {} <==> forall p :: p !in paths
  {}

  // ----- rendering -----

  /** What a program writes under the stage: all of it, or as much as it got to. */
  datatype Rendering = Whole(nodes: Nodes) | CutShort(nodes: Nodes)

  /** A rendering written into the stage, over whatever is left there. */
  function Rendered(base: Nodes, stage: Path, rendering: Nodes): Nodes
    requires stage != []
  {
    WithDirs(base, Parent(stage)) + Transplanted(rendering, [], stage)
  }

  /** There's room for the stage, and no file is left where a directory is to be, nor the other way round. */
  predicate Fits(base: Nodes, stage: Path, rendering: Nodes)
    requires stage != []
  {
    && RoomFor(base, Parent(stage))
    && forall r | r in rendering && stage + r in base :: base[stage + r].Dir? <==> rendering[r].Dir?
  }

  /** Everything outside the stage is as it was, but for directories above it. */
  ghost predicate KeptOutside(before: Nodes, after: Nodes, stage: Path) {
    forall p | !(stage <= p) :: AsItWas(before, after, p, {stage})
  }

  /** Clears the stage, as far as it's let, and has the rendering written there. `base` is what it's written
      over. */
  method Render(disk: Disk, stage: Path, rendering: Rendering) returns (done: bool, ghost base: Nodes)
    requires WellFormed(disk.nodes) && stage != [] && WellFormed(rendering.nodes)
    modifies disk
    ensures WellFormed(disk.nodes) && (old(disk.refused) ==> disk.refused)
    ensures WellFormed(base) && IsBase(old(disk.nodes), base, stage)
    ensures !disk.refused && !IsFile(old(disk.nodes), stage) ==> stage !in base
    ensures done <==> rendering.Whole? && Fits(base, stage, rendering.nodes)
    ensures done ==> disk.nodes == Rendered(base, stage, rendering.nodes)
    ensures done && !disk.refused ==> stage !in base
    ensures !done ==> KeptOutside(old(disk.nodes), disk.nodes, stage)
  {
    hide WellFormed, Rendered, Removed, Fits, KeptOutside, IsFile;
    ghost var before := disk.nodes;
    // What comes of it isn't looked at.
    var cleared := disk.RemoveDirAll(stage);
    base := disk.nodes;
    BaseKeepsOutside(before, base, stage);
    RemovedHoldsNoStage(before, stage);
    if !Fits(disk.nodes, stage, rendering.nodes) {
      DroppingKeeps(before, disk.nodes, stage);
      var dropped := disk.RemoveDirAll(stage);
      return false, base;
    }
    RenderedIsWellFormed(disk.nodes, stage, rendering.nodes);
    NoFileFits(base, stage, rendering.nodes);
    RenderedKeepsOutside(before, base, stage, rendering.nodes);
    disk.nodes := Rendered(disk.nodes, stage, rendering.nodes);
    if rendering.CutShort? {
      DroppingKeeps(before, disk.nodes, stage);
      var dropped := disk.RemoveDirAll(stage);
      return false, base;
    }
    done := true;
  }

  /** The stage was cleared, or left as it was. */
  ghost predicate IsBase(before: Nodes, base: Nodes, stage: Path) {
    base == before || base == Removed(before, stage)
  }

  /** A file that stands where the stage is to be is in the way. */
  lemma NoFileFits(base: Nodes, stage: Path, rendering: Nodes)
    requires stage != [] && WellFormed(rendering) && Fits(base, stage, rendering)
    ensures !IsFile(base, stage)
  {
    Empty(stage);
    var r: Path := [];
    assert r in rendering && stage + r == stage;
  }

  lemma RemovedHoldsNoStage(nodes: Nodes, stage: Path)
    ensures stage !in Removed(nodes, stage)
  {}

  lemma BaseKeepsOutside(before: Nodes, base: Nodes, stage: Path)
    requires IsBase(before, base, stage)
    ensures KeptOutside(before, base, stage)
  {}

  lemma DroppingKeeps(before: Nodes, after: Nodes, stage: Path)
    requires KeptOutside(before, after, stage)
    ensures KeptOutside(before, Removed(after, stage), stage)
  {
    forall p | !(stage <= p) ensures AsItWas(before, Removed(after, stage), p, {stage}) {
      assert AsItWas(before, after, p, {stage});
    }
  }

  lemma RenderedIsWellFormed(base: Nodes, stage: Path, rendering: Nodes)
    requires WellFormed(base) && WellFormed(rendering) && stage != [] && Fits(base, stage, rendering)
    ensures WellFormed(Rendered(base, stage, rendering))
  {
    hide Transplanted, WithDirs;
    var dirs := WithDirs(base, Parent(stage));
    WithDirsIsWellFormed(base, Parent(stage));
    var moved, after := Transplanted(rendering, [], stage), Rendered(base, stage, rendering);
    RootIsMoved(rendering, [], stage);
    forall p | p in moved ensures stage <= p {
      TransplantedIsUnder(rendering, [], stage, p);
    }
    forall p | p in after && p != [] ensures p[..|p| - 1] in after && after[p[..|p| - 1]] == Dir {
      var up := p[..|p| - 1];
      if p !in moved {
        if up in moved {
          LeftInADirectory(base, stage, rendering, up);
        }
      } else if p == stage {
        assert up == Parent(stage);
      } else {
        RenderedHasParent(rendering, stage, p);
      }
    }
  }

  lemma UnderTheStage(base: Nodes, stage: Path, p: Path)
    requires stage != [] && stage <= p
    ensures p in WithDirs(base, Parent(stage)) <==> p in base
    ensures p in base ==> WithDirs(base, Parent(stage))[p] == base[p]
  {
    IsPrefix(Parent(stage), p);
  }

  lemma LeftInADirectory(base: Nodes, stage: Path, rendering: Nodes, up: Path)
    requires stage != [] && Fits(base, stage, rendering) && up in Transplanted(rendering, [], stage)
    requires up in WithDirs(base, Parent(stage)) && WithDirs(base, Parent(stage))[up] == Dir
    ensures Transplanted(rendering, [], stage)[up] == Dir
  {
    hide Transplanted, WithDirs;
    TransplantedIsUnder(rendering, [], stage, up);
    UnderTheStage(base, stage, up);
    var r := up[|stage|..];
    Empty(r);
    assert up == stage + r;
    TransplantedAt(rendering, [], stage, r);
  }

  lemma RenderedHasParent(rendering: Nodes, stage: Path, p: Path)
    requires WellFormed(rendering) && p in Transplanted(rendering, [], stage) && p != stage && p != []
    ensures var up, staged := p[..|p| - 1], Transplanted(rendering, [], stage);
            up in staged && staged[up] == Dir
  {
    hide Transplanted, WellFormed;
    TransplantedIsUnder(rendering, [], stage, p);
    var r := p[|stage|..];
    ParentOfSum(stage, r);
    Empty(r);
    assert p == stage + r;
    AncestorsAreDirs(rendering, r, |r| - 1);
    Empty(r[..|r| - 1]);
    TransplantedAt(rendering, [], stage, r[..|r| - 1]);
  }

  lemma RenderedKeepsOutside(before: Nodes, base: Nodes, stage: Path, rendering: Nodes)
    requires stage != [] && KeptOutside(before, base, stage)
    ensures KeptOutside(before, Rendered(base, stage, rendering), stage)
  {
    hide Transplanted;
    forall p | !(stage <= p) ensures AsItWas(before, Rendered(base, stage, rendering), p, {stage}) {
      assert AsItWas(before, base, p, {stage});
      if p in Transplanted(rendering, [], stage) {
        TransplantedIsUnder(rendering, [], stage, p);
      }
      IsPrefix(Parent(stage), p);
      assert p <= Parent(stage) ==> p <= stage && stage in {stage};
    }
  }

  /** Nothing is left where an output is staged but what its rendering holds too. */
  ghost predicate LeavesNothing(base: Nodes, stage: Path, rendering: Nodes, o: Output) {
    forall r: Path | Staged(stage, o) + r in base :: [o.staged] + r in rendering
  }

  /** What's staged for an output is its rendering exactly when nothing else was left there. */
  lemma StagedIsRendered(base: Nodes, stage: Path, rendering: Nodes, o: Output)
    requires stage != []
    ensures SameUnder(Rendered(base, stage, rendering), Staged(stage, o), rendering, [o.staged])
       <==> LeavesNothing(base, stage, rendering, o)
  {
    hide Transplanted, WithDirs;
    var s, after := Staged(stage, o), Rendered(base, stage, rendering);
    forall r: Path
      ensures s + r in after <==> s + r in base || [o.staged] + r in rendering
      ensures [o.staged] + r in rendering ==> after[s + r] == rendering[[o.staged] + r]
    {
      var q := [o.staged] + r;
      Assoc(stage, [o.staged], r);
      Empty(q);
      assert s + r == stage + q;
      TransplantedAt(rendering, [], stage, q);
      UnderTheStage(base, stage, s + r);
    }
  }

  lemma NothingStoodThere(base: Nodes, stage: Path, rendering: Nodes, o: Output)
    requires WellFormed(base) && stage !in base
    ensures LeavesNothing(base, stage, rendering, o)
  {
    forall r: Path ensures Staged(stage, o) + r !in base {
      Assoc(stage, [o.staged], r);
      NothingBelowNothing(base, stage, _ => false, Staged(stage, o) + r);
    }
  }

  // ----- comparing -----

  /** Where it fails, what is told: the gaps, and output by output what differs. */
  datatype Judgement = Passed | Differs(gaps: Gaps, lines: seq<seq<Difference>>) | Broken

  /** Whether each tree holds the files staged for it. */
  ghost predicate UpToDate(nodes: Nodes, stage: Path, outputs: seq<Output>) {
    forall o | o in outputs :: FilesUnder(nodes, Staged(stage, o)) == FilesUnder(nodes, o.tree)
  }

  /** Where a tree or its rendering is looked for there's a file. */
  predicate CantBeCompared(nodes: Nodes, stage: Path, outputs: seq<Output>) {
    exists i | 0 <= i < |outputs| :: IsFile(nodes, Staged(stage, outputs[i])) || IsFile(nodes, outputs[i].tree)
  }

  /** What differs between an output's tree and what is staged for it, each file once and in order. */
  ghost predicate AreLines(nodes: Nodes, stage: Path, o: Output, lines: seq<Difference>) {
    && (forall d :: d in lines <==> IsDifference(FilesUnder(nodes, Staged(stage, o)), FilesUnder(nodes, o.tree), d))
    && NoneTwice(lines) && InOrder(lines)
  }

  ghost predicate Tell(nodes: Nodes, stage: Path, outputs: seq<Output>, lines: seq<seq<Difference>>) {
    |lines| == |outputs| && forall k | 0 <= k < |outputs| :: AreLines(nodes, stage, outputs[k], lines[k])
  }

  method Compare(nodes: Nodes, stage: Path, outputs: seq<Output>, gaps: Gaps) returns (r: Judgement)
    requires WellFormed(nodes)
    ensures r.Broken? <==> CantBeCompared(nodes, stage, outputs)
    ensures r.Passed? <==> !r.Broken? && gaps.AreNone() && UpToDate(nodes, stage, outputs)
    ensures r.Differs? ==> r.gaps == gaps && Tell(nodes, stage, outputs, r.lines)
  {
    hide WellFormed, FilesUnder, IsDifference, NoneTwice, InOrder;
    var found: seq<seq<Difference>> := [];
    var same := true;
    for i := 0 to |outputs|
      invariant forall k | 0 <= k < i :: !IsFile(nodes, Staged(stage, outputs[k])) && !IsFile(nodes, outputs[k].tree)
      invariant same <==>
        forall k | 0 <= k < i :: FilesUnder(nodes, Staged(stage, outputs[k])) == FilesUnder(nodes, outputs[k].tree)
      invariant |found| == i && forall k | 0 <= k < i :: AreLines(nodes, stage, outputs[k], found[k])
    {
      var rendered := Files(nodes, Staged(stage, outputs[i]));
      var inTree := Files(nodes, outputs[i].tree);
      if rendered.None? || inTree.None? {
        return Broken;
      }
      var lines := Differences(rendered.value, inTree.value);
      found := found + [lines];
      same := same && lines == [];
    }
    r := if gaps.AreNone() && same then Passed else Differs(gaps, found);
  }

  // ----- write and check -----

  datatype Outcome = Written | NotRouted(gaps: Gaps) | Failed

  /** Replaces the trees, once the routing is clean. `base` is what the rendering was written over. */
  method Write(disk: Disk, stage: Path, outputs: seq<Output>, rendering: Rendering)
    returns (r: Outcome, ghost base: Nodes)
    requires WellFormed(disk.nodes) && stage != [] && AllApart(stage, outputs) && WellFormed(rendering.nodes)
    modifies disk
    ensures WellFormed(disk.nodes) && (old(disk.refused) ==> disk.refused)
    ensures r.NotRouted? <==> !CantBeRouted(old(disk.nodes)) && !IsRouted(old(disk.nodes), outputs)
    ensures r.NotRouted? ==> AreGaps(old(disk.nodes), outputs, r.gaps) && disk.nodes == old(disk.nodes)
    ensures WellFormed(base) && IsBase(old(disk.nodes), base, stage)
    ensures r.Written? && !disk.refused ==> stage !in base && stage !in disk.nodes
    ensures r.Written? ==> CanBeWritten(old(disk.nodes), base, stage, outputs, rendering)
    ensures r.Written? ==> AreInstalled(disk.nodes, base, stage, outputs, rendering.nodes)
    // The trees are the rendering exactly when nothing else was left in the stage.
    ensures r.Written? ==> (Replaced(old(disk.nodes), disk.nodes, stage, outputs, rendering.nodes)
                            <==> forall o | o in outputs :: LeavesNothing(base, stage, rendering.nodes, o))
    ensures r.Failed? && !disk.refused ==>
              || !CanBeWritten(old(disk.nodes), base, stage, outputs, rendering)
              || !Installable(Rendered(base, stage, rendering.nodes), stage, outputs)
    ensures Untouched(old(disk.nodes), disk.nodes, stage, outputs)
  {
    hide WellFormed, IsRouted, AreGaps, AllApart, InstalledTo, PartlyInstalled, Rendered, Replaced, CantBeRouted, RoomFor;
    hide Installable, Untouched, Removed, KeptOutside, Fits, IsFile, LeavesNothing, AreInstalled;
    ghost var before := disk.nodes;
    base := before;
    NothingTouched(before, stage, outputs);
    var gaps := Routing(disk.nodes, outputs);
    if gaps.None? {
      return Failed, base;
    }
    if !gaps.value.AreNone() {
      return NotRouted(gaps.value), base;
    }
    var rendered;
    rendered, base := Render(disk, stage, rendering);
    if !rendered {
      KeptIsUntouched(before, disk.nodes, stage, outputs);
      return Failed, base;
    }
    ghost var staged := disk.nodes;
    BaseKeepsOutside(before, base, stage);
    RenderedKeepsOutside(before, base, stage, rendering.nodes);
    var failed := disk.Install(stage, outputs);
    ghost var installed := disk.nodes;
    if failed.None? {
      InstalledTouchesNothing(before, staged, installed, stage, outputs);
      StageIsADirectory(base, staged, installed, stage, outputs, rendering.nodes);
      InstalledAreThere(base, installed, stage, outputs, rendering.nodes);
    } else {
      PartlyInstalledTouchesNothing(before, staged, installed, stage, outputs, failed.value);
    }
    StageIsNotTouched(before, installed, stage, outputs);
    RemovedHoldsNoStage(installed, stage);
    // The stage is dropped, as far as it can be.
    var dropped := disk.RemoveDirAll(stage);
    if failed.Some? {
      return Failed, base;
    }
    DroppedAreThere(base, installed, disk.nodes, stage, outputs, rendering.nodes);
    ReplacedExactly(before, disk.nodes, base, stage, outputs, rendering.nodes);
    r := Written;
  }

  /** Each tree is its rendering, and everything but the trees and the stage is as it was. */
  ghost predicate Replaced(before: Nodes, after: Nodes, stage: Path, outputs: seq<Output>, rendering: Nodes) {
    && (forall o | o in outputs :: SameUnder(after, o.tree, rendering, [o.staged]))
    && Untouched(before, after, stage, outputs)
  }

  /** Each tree is what was staged for it: its rendering over what was left there. */
  ghost predicate AreInstalled(after: Nodes, base: Nodes, stage: Path, outputs: seq<Output>, rendering: Nodes)
    requires stage != []
  {
    var staged := Rendered(base, stage, rendering);
    forall o | o in outputs :: IsDir(staged, Staged(stage, o)) && SameUnder(after, o.tree, staged, Staged(stage, o))
  }

  /** The registry is routed, and there's a whole rendering and a place for it. */
  ghost predicate CanBeWritten(nodes: Nodes, base: Nodes, stage: Path, outputs: seq<Output>, rendering: Rendering)
    requires stage != []
  {
    && !CantBeRouted(nodes) && IsRouted(nodes, outputs)
    && rendering.Whole? && Fits(base, stage, rendering.nodes)
  }

  /** Everything but the trees and the stage is as it was. */
  ghost predicate Untouched(before: Nodes, after: Nodes, stage: Path, outputs: seq<Output>) {
    forall p | !(stage <= p) && (forall o | o in outputs :: !(o.tree <= p)) ::
      AsItWas(before, after, p, TreesOf(outputs) + {stage})
  }

  lemma NothingTouched(nodes: Nodes, stage: Path, outputs: seq<Output>)
    ensures Untouched(nodes, nodes, stage, outputs)
  {}

  lemma KeptIsUntouched(before: Nodes, after: Nodes, stage: Path, outputs: seq<Output>)
    requires KeptOutside(before, after, stage)
    ensures Untouched(before, after, stage, outputs)
  {
    var trees := TreesOf(outputs) + {stage};
    forall p | !(stage <= p) && (forall o | o in outputs :: !(o.tree <= p)) ensures AsItWas(before, after, p, trees) {
      AsItWasOfMore(before, after, p, {stage}, trees);
    }
  }

  lemma StageIsNotTouched(before: Nodes, after: Nodes, stage: Path, outputs: seq<Output>)
    requires Untouched(before, after, stage, outputs)
    ensures Untouched(before, Removed(after, stage), stage, outputs)
  {
    forall p | !(stage <= p) && (forall o | o in outputs :: !(o.tree <= p))
      ensures AsItWas(before, Removed(after, stage), p, TreesOf(outputs) + {stage})
    {
      assert AsItWas(before, after, p, TreesOf(outputs) + {stage});
    }
  }

  lemma InstalledTouchesNothing(before: Nodes, staged: Nodes, after: Nodes, stage: Path, outputs: seq<Output>)
    requires KeptOutside(before, staged, stage) && InstalledTo(staged, after, stage, outputs, |outputs|)
    ensures Untouched(before, after, stage, outputs)
  {
    hide SameUnder;
    var n, trees := |outputs|, TreesOf(outputs) + {stage};
    forall p | !(stage <= p) && (forall o | o in outputs :: !(o.tree <= p)) ensures AsItWas(before, after, p, trees) {
      NotUnderAny(stage, outputs, n, p);
      SomeTrees(outputs, n);
      EitherWay(before, staged, after, p, {stage}, Trees(outputs, n), trees);
    }
  }

  lemma PartlyInstalledTouchesNothing(
      before: Nodes, staged: Nodes, after: Nodes, stage: Path, outputs: seq<Output>, k: nat)
    requires KeptOutside(before, staged, stage)
    requires k < |outputs| && PartlyInstalled(staged, after, stage, outputs, k)
    ensures Untouched(before, after, stage, outputs)
  {
    hide SameUnder;
    var n, trees := k + 1, TreesOf(outputs) + {stage};
    forall p | !(stage <= p) && (forall o | o in outputs :: !(o.tree <= p)) ensures AsItWas(before, after, p, trees) {
      NotUnderAny(stage, outputs, k, p);
      assert !(outputs[k].tree <= p);
      SomeTrees(outputs, n);
      EitherWay(before, staged, after, p, {stage}, Trees(outputs, n), trees);
    }
  }

  lemma NotUnderAny(stage: Path, outputs: seq<Output>, k: nat, p: Path)
    requires k <= |outputs| && !(stage <= p) && forall o | o in outputs :: !(o.tree <= p)
    ensures Elsewhere(stage, outputs, k, p)
  {
    forall i | 0 <= i < k ensures !(outputs[i].tree <= p) && !(Staged(stage, outputs[i]) <= p) {
      assert outputs[i] in outputs && stage <= Staged(stage, outputs[i]);
      if Staged(stage, outputs[i]) <= p {
        Above(stage, Staged(stage, outputs[i]), p);
      }
    }
  }

  lemma SomeTrees(outputs: seq<Output>, k: nat)
    requires k <= |outputs|
    ensures Trees(outputs, k) <= TreesOf(outputs)
  {
    forall t | t in Trees(outputs, k) ensures t in TreesOf(outputs) {
      var i :| 0 <= i < k && outputs[i].tree == t;
      assert outputs[i] in outputs;
    }
  }

  lemma EitherWay(a: Nodes, b: Nodes, c: Nodes, p: Path, first: set<Path>, second: set<Path>, all: set<Path>)
    requires AsItWas(a, b, p, first) && AsItWas(b, c, p, second) && first <= all && second <= all
    ensures AsItWas(a, c, p, all)
  {}

  /** The stage is still a directory once what it held is installed. */
  lemma StageIsADirectory(
      base: Nodes, staged: Nodes, installed: Nodes, stage: Path, outputs: seq<Output>, rendering: Nodes)
    requires stage != [] && AllApart(stage, outputs) && WellFormed(rendering)
    requires staged == Rendered(base, stage, rendering) && InstalledTo(staged, installed, stage, outputs, |outputs|)
    ensures !IsFile(staged, stage) && !IsFile(installed, stage)
  {
    hide Transplanted, WithDirs;
    RootIsMoved(rendering, [], stage);
    forall i | 0 <= i < |outputs| ensures !(outputs[i].tree <= stage) && !(Staged(stage, outputs[i]) <= stage) {
      assert Apart(stage, outputs[i].tree);
    }
    assert Elsewhere(stage, outputs, |outputs|, stage);
  }

  lemma InstalledAreThere(base: Nodes, installed: Nodes, stage: Path, outputs: seq<Output>, rendering: Nodes)
    requires stage != []
    requires InstalledTo(Rendered(base, stage, rendering), installed, stage, outputs, |outputs|)
    requires forall o | o in outputs :: IsDir(Rendered(base, stage, rendering), Staged(stage, o))
    ensures AreInstalled(installed, base, stage, outputs, rendering)
  {
    hide Rendered, SameUnder;
    forall o | o in outputs ensures SameUnder(installed, o.tree, Rendered(base, stage, rendering), Staged(stage, o)) {
      var i: nat :| i < |outputs| && outputs[i] == o;
    }
  }

  lemma DroppedAreThere(base: Nodes, installed: Nodes, after: Nodes, stage: Path, outputs: seq<Output>, rendering: Nodes)
    requires stage != [] && AllApart(stage, outputs) && AreInstalled(installed, base, stage, outputs, rendering)
    requires after == installed || after == Removed(installed, stage)
    ensures AreInstalled(after, base, stage, outputs, rendering)
  {
    hide Rendered, SameUnder;
    BaseKeepsOutside(installed, after, stage);
    forall o | o in outputs ensures SameUnder(after, o.tree, Rendered(base, stage, rendering), Staged(stage, o)) {
      TreeOutlives(installed, after, stage, outputs, o);
      SameUnderComposes(after, o.tree, installed, o.tree, Rendered(base, stage, rendering), Staged(stage, o));
    }
  }

  lemma TreeOutlives(before: Nodes, after: Nodes, stage: Path, outputs: seq<Output>, o: Output)
    requires AllApart(stage, outputs) && o in outputs && KeptOutside(before, after, stage)
    ensures SameUnder(after, o.tree, before, o.tree)
  {
    var i: nat :| i < |outputs| && outputs[i] == o;
    assert Apart(stage, outputs[i].tree);
    forall r: Path ensures AsItWas(before, after, o.tree + r, {}) {
      ApartFromAll(o.tree, stage, o.tree + r);
      assert AsItWas(before, after, o.tree + r, {stage});
    }
  }

  lemma SameUnderTurned(a: Nodes, d: Path, b: Nodes, e: Path)
    requires SameUnder(a, d, b, e)
    ensures SameUnder(b, e, a, d)
  {}

  lemma ReplacedExactly(before: Nodes, after: Nodes, base: Nodes, stage: Path, outputs: seq<Output>, rendering: Nodes)
    requires stage != [] && AreInstalled(after, base, stage, outputs, rendering) && Untouched(before, after, stage, outputs)
    ensures Replaced(before, after, stage, outputs, rendering)
       <==> forall o | o in outputs :: LeavesNothing(base, stage, rendering, o)
  {
    forall o | o in outputs
      ensures SameUnder(after, o.tree, rendering, [o.staged]) <==> LeavesNothing(base, stage, rendering, o)
    {
      hide Rendered, SameUnder, LeavesNothing, Untouched;
      TreeIsRenderedExactly(after, base, stage, rendering, o);
    }
  }

  lemma TreeIsRenderedExactly(after: Nodes, base: Nodes, stage: Path, rendering: Nodes, o: Output)
    requires stage != [] && SameUnder(after, o.tree, Rendered(base, stage, rendering), Staged(stage, o))
    ensures SameUnder(after, o.tree, rendering, [o.staged]) <==> LeavesNothing(base, stage, rendering, o)
  {
    hide Rendered, SameUnder, LeavesNothing;
    var staged := Rendered(base, stage, rendering);
    StagedIsRendered(base, stage, rendering, o);
    if SameUnder(staged, Staged(stage, o), rendering, [o.staged]) {
      SameUnderComposes(after, o.tree, staged, Staged(stage, o), rendering, [o.staged]);
    }
    if SameUnder(after, o.tree, rendering, [o.staged]) {
      SameUnderTurned(after, o.tree, staged, Staged(stage, o));
      SameUnderComposes(staged, Staged(stage, o), after, o.tree, rendering, [o.staged]);
    }
  }

  /** A file that's left in the stage, because it couldn't be cleared, ends up in the tree though nothing
      renders it. */
  lemma ALeftoverIsInstalled(
      after: Nodes, base: Nodes, stage: Path, outputs: seq<Output>, rendering: Nodes, o: Output, r: Path)
    requires stage != [] && AreInstalled(after, base, stage, outputs, rendering) && o in outputs
    requires IsFile(base, Staged(stage, o) + r) && [o.staged] + r !in rendering
    ensures o.tree + r in after && after[o.tree + r] == base[Staged(stage, o) + r]
    ensures FilesUnder(after, o.tree) != FilesUnder(rendering, [o.staged])
  {
    hide Transplanted, WithDirs;
    var s, q := Staged(stage, o), [o.staged] + r;
    Assoc(stage, [o.staged], r);
    Empty(q);
    assert s + r == stage + q;
    TransplantedAt(rendering, [], stage, q);
    UnderTheStage(base, stage, s + r);
    assert s + r in Rendered(base, stage, rendering);
    FilesAt(after, o.tree, r);
    FilesAt(rendering, [o.staged], r);
  }

  /** The check, over what it could clear of the stage. */
  method Check(disk: Disk, stage: Path, outputs: seq<Output>, rendering: Rendering)
    returns (r: Judgement, ghost base: Nodes)
    requires WellFormed(disk.nodes) && stage != [] && WellFormed(rendering.nodes)
    modifies disk
    ensures WellFormed(disk.nodes) && (old(disk.refused) ==> disk.refused)
    ensures WellFormed(base) && IsBase(old(disk.nodes), base, stage)
    ensures !disk.refused && !IsFile(old(disk.nodes), stage) && !CantBeRouted(old(disk.nodes)) ==> stage !in base
    ensures r.Broken? <==>
              || CantBeRouted(old(disk.nodes)) || rendering.CutShort? || !Fits(base, stage, rendering.nodes)
              || CantBeCompared(Rendered(base, stage, rendering.nodes), stage, outputs)
    ensures r.Passed? <==>
              && !r.Broken?
              && IsRouted(old(disk.nodes), outputs)
              && UpToDate(Rendered(base, stage, rendering.nodes), stage, outputs)
    ensures r.Differs? ==>
              && AreGaps(old(disk.nodes), outputs, r.gaps)
              && Tell(Rendered(base, stage, rendering.nodes), stage, outputs, r.lines)
    ensures KeptOutside(old(disk.nodes), disk.nodes, stage)
  {
    hide WellFormed, IsRouted, AreGaps, Rendered, UpToDate, CantBeRouted, CantBeCompared, Fits, KeptOutside, Removed;
    ghost var before := disk.nodes;
    base := before;
    BaseKeepsOutside(before, base, stage);
    var gaps := Routing(disk.nodes, outputs);
    if gaps.None? {
      return Broken, base;
    }
    var rendered;
    rendered, base := Render(disk, stage, rendering);
    if !rendered {
      return Broken, base;
    }
    BaseKeepsOutside(before, base, stage);
    RenderedKeepsOutside(before, base, stage, rendering.nodes);
    r := Compare(disk.nodes, stage, outputs, gaps.value);
    DroppingKeeps(before, disk.nodes, stage);
    var dropped := disk.RemoveDirAll(stage);
  }

  // ----- a write, then a check -----

  /** Trees that routing finds where they're expected: apart from the registry, and generated directories
      wherever generated directories are looked for, none above another. */
  ghost predicate Routable(stage: Path, outputs: seq<Output>) {
    && Apart(REGISTRY, stage) && (forall o | o in outputs :: Apart(REGISTRY, o.tree))
    && (forall root | root in CRATE_ROOTS :: Apart(root, stage))
    && (forall root, o | root in CRATE_ROOTS && o in outputs ::
          !(o.tree <= root) && (root < o.tree ==> IsGenerated(o.tree)))
    && (forall o, p: Path | o in outputs && p < o.tree :: !IsGenerated(p))
  }

  lemma RegistryIsKept(before: Nodes, after: Nodes, stage: Path, outputs: seq<Output>, p: Path)
    requires Untouched(before, after, stage, outputs) && Routable(stage, outputs) && REGISTRY <= p
    ensures p in before <==> p in after
    ensures p in after ==> after[p] == before[p]
  {
    ApartFromAll(REGISTRY, stage, p);
    forall o | o in outputs ensures !(o.tree <= p) && !(p <= o.tree) {
      ApartFromAll(REGISTRY, o.tree, p);
    }
    assert AsItWas(before, after, p, TreesOf(outputs) + {stage});
  }

  lemma FoldersAreKept(before: Nodes, after: Nodes, stage: Path, outputs: seq<Output>)
    requires Untouched(before, after, stage, outputs) && Routable(stage, outputs)
    ensures Folders(after) == Folders(before)
  {
    hide Untouched, Routable, IsModules;
    forall p | REGISTRY < p
      ensures Reached(after, REGISTRY, NothingWanted, p) <==> Reached(before, REGISTRY, NothingWanted, p)
    {
      RegistryIsKept(before, after, stage, outputs, p);
    }
  }

  /** A generated directory that's stray after a write was stray before it. */
  lemma StrayWasStray(before: Nodes, after: Nodes, stage: Path, outputs: seq<Output>, root: Path, p: Path)
    requires Untouched(before, after, stage, outputs) && Routable(stage, outputs) && root in CRATE_ROOTS
    requires IsStray(after, outputs, root, p)
    ensures IsStray(before, outputs, root, p)
  {
    assert IsGenerated(p) && root < p;
    ApartFromAll(root, stage, p);
    forall o | o in outputs ensures !(o.tree <= p) && !(p <= o.tree) {
      assert o.tree in TreesOf(outputs) && p != o.tree;
      assert p < o.tree ==> !IsGenerated(p);
      if o.tree <= p {
        TreeOnTheWay(after, root, o.tree, p);
      }
    }
    assert AsItWas(before, after, p, TreesOf(outputs) + {stage});
    assert p in before && before[p].Dir?;
    assert Reached(before, root, IsGenerated, p);
  }

  /** A generated directory isn't looked into, so nothing in one is reached. */
  lemma TreeOnTheWay(nodes: Nodes, root: Path, tree: Path, p: Path)
    requires Reached(nodes, root, IsGenerated, p) && tree <= p && p != tree && !(tree <= root)
    ensures root < tree && !IsGenerated(tree)
  {
    assert p[..|tree|] == tree && p[..|root|] == root;
    if |tree| <= |root| {
      ShorterIsAbove(tree, root, p);
    }
  }

  lemma RoutingStaysClean(before: Nodes, after: Nodes, stage: Path, outputs: seq<Output>)
    requires Untouched(before, after, stage, outputs) && Routable(stage, outputs)
    requires IsRouted(before, outputs)
    ensures IsRouted(after, outputs)
  {
    hide Untouched, Routable, IsStray, Folders;
    FoldersAreKept(before, after, stage, outputs);
    forall root, p | root in CRATE_ROOTS && IsStray(after, outputs, root, p) ensures p in Strays(before, outputs, root) {
      StrayWasStray(before, after, stage, outputs, root, p);
      StrayIsThere(before, outputs, root, p);
    }
  }

  lemma StrayIsThere(nodes: Nodes, outputs: seq<Output>, root: Path, p: Path)
    requires IsStray(nodes, outputs, root, p)
    ensures p in nodes && p in Strays(nodes, outputs, root)
  {}

  /** What a second rendering over a cleared stage leaves, against what the write left. */
  lemma AgainIsKept(after: Nodes, base: Nodes, stage: Path, rendering: Nodes)
    requires stage != [] && IsBase(after, base, stage)
    ensures KeptOutside(after, Rendered(base, stage, rendering), stage)
  {
    hide Rendered, Removed;
    BaseKeepsOutside(after, base, stage);
    RenderedKeepsOutside(after, base, stage, rendering);
  }

  /** Trees that were replaced are up to date with the same rendering, wherever it's staged now. */
  lemma ReplacedIsUpToDate(
      before: Nodes, after: Nodes, base: Nodes, stage: Path, next: Path, outputs: seq<Output>, rendering: Nodes)
    requires next != [] && AllApart(next, outputs) && Replaced(before, after, stage, outputs, rendering)
    requires WellFormed(base) && IsBase(after, base, next) && next !in base
    ensures UpToDate(Rendered(base, next, rendering), next, outputs)
  {
    hide Rendered, SameUnder, FilesUnder, LeavesNothing, KeptOutside, WellFormed, IsBase, Untouched;
    var again := Rendered(base, next, rendering);
    AgainIsKept(after, base, next, rendering);
    forall o | o in outputs ensures FilesUnder(again, Staged(next, o)) == FilesUnder(again, o.tree) {
      NothingStoodThere(base, next, rendering, o);
      StagedIsRendered(base, next, rendering, o);
      TreeOutlives(after, again, next, outputs, o);
      SameUnderComposes(again, o.tree, after, o.tree, rendering, [o.staged]);
      SameTreesHoldSameFiles(again, Staged(next, o), rendering, [o.staged]);
      SameTreesHoldSameFiles(again, o.tree, rendering, [o.staged]);
    }
  }

  /** Stages beside one another, or one and the same, and both apart from the trees. */
  ghost predicate AreStages(stage: Path, next: Path, outputs: seq<Output>) {
    && stage != [] && next != [] && Parent(stage) == Parent(next)
    && AllApart(stage, outputs) && AllApart(next, outputs)
  }

  lemma CanBeRoutedStill(before: Nodes, after: Nodes, stage: Path, outputs: seq<Output>)
    requires Untouched(before, after, stage, outputs) && Routable(stage, outputs) && !CantBeRouted(before)
    ensures !CantBeRouted(after)
  {
    RegistryIsKept(before, after, stage, outputs, REGISTRY);
    forall root | root in CRATE_ROOTS ensures !IsFile(after, root) {
      assert AsItWas(before, after, root, TreesOf(outputs) + {stage});
    }
  }

  /** Nothing stands in the way of a check after a write. */
  lemma NothingIsInTheWay(
      before: Nodes, after: Nodes, first: Nodes, base: Nodes, stage: Path, next: Path, outputs: seq<Output>,
      rendering: Nodes)
    requires AreStages(stage, next, outputs) && Routable(stage, outputs)
    requires Replaced(before, after, stage, outputs, rendering) && AreInstalled(after, first, stage, outputs, rendering)
    requires IsBase(before, first, stage) && CanBeWritten(before, first, stage, outputs, Whole(rendering))
    requires WellFormed(base) && IsBase(after, base, next) && next !in base
    ensures !CantBeRouted(after) && Fits(base, next, rendering)
    ensures !CantBeCompared(Rendered(base, next, rendering), next, outputs)
  {
    hide Rendered, SameUnder, IsRouted, AreInstalled, Fits, WellFormed;
    CanBeRoutedStill(before, after, stage, outputs);
    RoomIsKept(before, after, first, base, stage, next, outputs, rendering);
    forall i | 0 <= i < |outputs|
      ensures !IsFile(Rendered(base, next, rendering), Staged(next, outputs[i]))
      ensures !IsFile(Rendered(base, next, rendering), outputs[i].tree)
    {
      TreesAreDirectories(after, first, base, stage, next, outputs, rendering, outputs[i]);
    }
  }

  lemma RoomIsKept(
      before: Nodes, after: Nodes, first: Nodes, base: Nodes, stage: Path, next: Path, outputs: seq<Output>,
      rendering: Nodes)
    requires AreStages(stage, next, outputs) && Untouched(before, after, stage, outputs)
    requires IsBase(before, first, stage) && Fits(first, stage, rendering)
    requires WellFormed(base) && IsBase(after, base, next) && next !in base
    ensures Fits(base, next, rendering)
  {
    forall p | p in base && p <= Parent(next) ensures base[p].Dir? {
      forall o | o in outputs ensures !(o.tree <= p) {
        var i: nat :| i < |outputs| && outputs[i] == o;
        Above(p, Parent(stage), stage);
        AboveApart(outputs[i].tree, stage, p);
      }
      assert !(stage <= p);
      assert AsItWas(before, after, p, TreesOf(outputs) + {stage});
      assert p in before ==> p in first && first[p] == before[p];
    }
    forall r | r in rendering ensures next + r !in base {
      NothingBelowNothing(base, next, _ => false, next + r);
    }
  }

  lemma TreesAreDirectories(
      after: Nodes, first: Nodes, base: Nodes, stage: Path, next: Path, outputs: seq<Output>, rendering: Nodes,
      o: Output)
    requires stage != [] && next != [] && AllApart(next, outputs) && o in outputs
    requires AreInstalled(after, first, stage, outputs, rendering) && SameUnder(after, o.tree, rendering, [o.staged])
    requires WellFormed(base) && IsBase(after, base, next) && next !in base
    ensures !IsFile(Rendered(base, next, rendering), Staged(next, o))
    ensures !IsFile(Rendered(base, next, rendering), o.tree)
  {
    hide Rendered, SameUnder, LeavesNothing, KeptOutside, WellFormed, IsBase;
    var again := Rendered(base, next, rendering);
    AgainIsKept(after, base, next, rendering);
    NothingStoodThere(base, next, rendering, o);
    StagedIsRendered(base, next, rendering, o);
    AtTheRoot(again, Staged(next, o), rendering, [o.staged]);
    TreeOutlives(after, again, next, outputs, o);
    AtTheRoot(again, o.tree, after, o.tree);
    AtTheRoot(after, o.tree, rendering, [o.staged]);
    AtTheRoot(after, o.tree, Rendered(first, stage, rendering), Staged(stage, o));
  }

  /** A write brings about no other stage. */
  lemma NextIsKept(before: Nodes, after: Nodes, stage: Path, next: Path, outputs: seq<Output>)
    requires AreStages(stage, next, outputs) && stage != next
    requires Untouched(before, after, stage, outputs)
    ensures next in after <==> next in before
    ensures next in after ==> after[next] == before[next]
  {
    assert |stage| == |next|;
    forall o | o in outputs ensures !(o.tree <= next) && !(next <= o.tree) {
      var i: nat :| i < |outputs| && outputs[i] == o;
      AboveApart(outputs[i].tree, next, next);
    }
    assert AsItWas(before, after, next, TreesOf(outputs) + {stage});
  }

  /** A write that succeeds is followed by a check of the same rendering that passes, when nothing else was
      left in the stage of the one and nothing at all in that of the other: as is so when the disk refuses
      nothing and no file stands where the second stage is to be. Each process has a stage of its own. */
  method WriteThenCheck(disk: Disk, stage: Path, next: Path, outputs: seq<Output>, rendering: Nodes)
    returns (written: Outcome, checked: Judgement, ghost first: Nodes, ghost between: Nodes, ghost second: Nodes)
    requires WellFormed(disk.nodes) && WellFormed(rendering)
    requires AreStages(stage, next, outputs) && Routable(stage, outputs)
    modifies disk
    // What the write did.
    ensures IsBase(old(disk.nodes), first, stage) && Untouched(old(disk.nodes), between, stage, outputs)
    ensures written.Written? ==>
              && CanBeWritten(old(disk.nodes), first, stage, outputs, Whole(rendering))
              && AreInstalled(between, first, stage, outputs, rendering)
    ensures written.NotRouted? <==> !CantBeRouted(old(disk.nodes)) && !IsRouted(old(disk.nodes), outputs)
    ensures written.NotRouted? ==> between == old(disk.nodes)
    ensures written.Failed? && !disk.refused ==>
              || !CanBeWritten(old(disk.nodes), first, stage, outputs, Whole(rendering))
              || !Installable(Rendered(first, stage, rendering), stage, outputs)
    // What the check did.
    ensures IsBase(between, second, next) && KeptOutside(between, disk.nodes, next)
    ensures checked.Broken? <==>
              || CantBeRouted(between) || !Fits(second, next, rendering)
              || CantBeCompared(Rendered(second, next, rendering), next, outputs)
    ensures checked.Passed? <==>
              && !checked.Broken? && IsRouted(between, outputs)
              && UpToDate(Rendered(second, next, rendering), next, outputs)
    // What the two come to.
    ensures written.Written? && next !in second
            && (forall o | o in outputs :: LeavesNothing(first, stage, rendering, o)) ==>
              checked.Passed?
    ensures written.Written? && !disk.refused && !IsFile(old(disk.nodes), next) ==> checked.Passed?
  {
    hide WellFormed, IsRouted, AreGaps, AllApart, Routable, Replaced, UpToDate, Rendered, CantBeRouted, Installable;
    hide CantBeCompared, Fits, Untouched, AreInstalled, LeavesNothing, KeptOutside, IsBase;
    ghost var before := disk.nodes;
    written, first := Write(disk, stage, outputs, Whole(rendering));
    between := disk.nodes;
    ghost var after := between;
    if written.Written? {
      CanBeRoutedStill(before, after, stage, outputs);
    }
    checked, second := Check(disk, next, outputs, Whole(rendering));
    if stage != next {
      NextIsKept(before, after, stage, next, outputs);
    }
    if written.Written? && stage !in first {
      forall o | o in outputs {
        NothingStoodThere(first, stage, rendering, o);
      }
    }
    if written.Written? && Replaced(before, after, stage, outputs, rendering) && next !in second {
      RoutingStaysClean(before, after, stage, outputs);
      ReplacedIsUpToDate(before, after, second, stage, next, outputs, rendering);
      NothingIsInTheWay(before, after, first, second, stage, next, outputs, rendering);
    }
  }

  /** The stage of the process `pid`. */
  function StageOf(pid: string): Path { ["lablet", "target", "weaver-generate", pid] }

  /** The outputs there are meet all that is asked of them, whichever two processes write and check. */
  lemma TheOutputsAreSound(pid: string, other: string)
    ensures AreStages(StageOf(pid), StageOf(other), OUTPUTS) && Routable(StageOf(pid), OUTPUTS)
    ensures StageOf(pid) == StageOf(other) <==> pid == other
    ensures |OUTPUTS| == 2
    ensures Staged(StageOf(pid), OUTPUTS[0]) == ["lablet", "target", "weaver-generate", pid, "run"]
    ensures Staged(StageOf(pid), OUTPUTS[1]) == ["lablet", "target", "weaver-generate", pid, "docs"]
    ensures OUTPUTS[0].tree == ["lablet", "crates", "application", "run", "src", "telemetry", "generated"]
    ensures OUTPUTS[1].tree == ["lablet", "docs", "telemetry"]
  {
    hide AllApart, Routable;
    TheStageIsSound(pid);
    TheStageIsSound(other);
    var stage, next := StageOf(pid), StageOf(other);
    assert stage[3] == pid && next[3] == other;
    assert Parent(stage) == Parent(next) == ["lablet", "target", "weaver-generate"];
  }

  lemma TheStageIsSound(pid: string)
    ensures AllApart(StageOf(pid), OUTPUTS) && Routable(StageOf(pid), OUTPUTS)
  {
    hide IsGenerated;
    var stage := StageOf(pid);
    assert stage[1] == "target" && OUTPUTS[0].tree[1] == "crates" && OUTPUTS[1].tree[1] == "docs";
    assert stage[1][0] == 't' && OUTPUTS[0].tree[1][0] == 'c' && OUTPUTS[1].tree[1][0] == 'd';
    assert REGISTRY[1][1] == 'e' && stage[1][1] == 'a';
    assert OUTPUTS[0].staged[0] == 'r' && OUTPUTS[1].staged[0] == 'd';
    assert CRATE_ROOTS[0][1][0] == 'c' && CRATE_ROOTS[1][1][0] == 'a';
    GeneratedIsWhole();
  }

  lemma GeneratedIsWhole()
    ensures forall o, p: Path | o in OUTPUTS && p < o.tree :: !IsGenerated(p)
    ensures IsGenerated(OUTPUTS[0].tree)
  {
    hide IsGenerated, EndsAs;
    var first, second := OUTPUTS[0].tree, OUTPUTS[1].tree;
    assert first[0][0] == 'l' && first[1][0] == 'c' && first[2][0] == 'a' && first[3][0] == 'r' && first[4][0] == 's';
    assert first[5][0] == 't' && second[0][0] == 'l' && second[1][0] == 'd' && "generated"[0] == 'g';
    forall p | p < first ensures !IsGenerated(p) {
      OnlyTheWhole(first, p);
    }
    forall p | p < second ensures !IsGenerated(p) {
      OnlyTheWhole(second, p);
    }
    GeneratedEndsAs(first);
    EndsInAll(first);
  }

  lemma EndsInAll(p: Path)
    requires |p| == 7 && p[4] == "src" && p[5] == "telemetry" && p[6] == "generated"
    ensures EndsAs(p)
  {}

  lemma OnlyTheWhole(tree: Path, p: Path)
    requires p < tree && forall k | 0 <= k < |tree| - 1 :: tree[k] != "generated"
    ensures !IsGenerated(p)
  {
    hide IsGenerated;
    GeneratedEndsAs(p);
    assert p != [] ==> p[|p| - 1] == tree[|p| - 1];
  }
}
