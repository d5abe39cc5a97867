/** Moving renderings from the stage over the directories they replace, one output after the other, and
    what a move that succeeds, or fails half way, leaves. */
module Installing {
  import opened Text
  import opened FileTree
  import opened GeneratedTrees

  function Parent(p: Path): Path
    requires p != []
  {
    p[..|p| - 1]
  }

  datatype Io = Done | NotFound | Refused

  /** A disk. Any operation may be refused, for whatever reason, and then changes nothing. */
  class Disk {
    var nodes: Nodes
    /** Whether the outside ever refused one. */
    ghost var refused: bool

    constructor (nodes: Nodes)
      ensures this.nodes == nodes && !refused
    {
      this.nodes := nodes;
      refused := false;
    }

    method RemoveDirAll(d: Path) returns (r: Io)
      requires WellFormed(nodes) && d != []
      modifies this
      ensures WellFormed(nodes)
      ensures r.Done? ==> d in old(nodes) && nodes == Removed(old(nodes), d)
      ensures !r.Done? ==> nodes == old(nodes)
      ensures r.NotFound? ==> d !in old(nodes)
      ensures old(refused) ==> refused
      ensures r.Refused? && !refused ==> IsFile(old(nodes), d)
    {
      var refusing: bool := *;
      if refusing {
        refused := true;
        return Refused;
      }
      if IsFile(nodes, d) {
        return Refused;
      }
      if d !in nodes {
        return NotFound;
      }
      RemovedIsWellFormed(nodes, d);
      nodes := Removed(nodes, d);
      r := Done;
    }

    method CreateDirAll(d: Path) returns (done: bool)
      requires WellFormed(nodes)
      modifies this
      ensures WellFormed(nodes)
      ensures done ==> nodes == WithDirs(old(nodes), d)
      ensures done ==> IsDir(nodes, d)
      ensures !done ==> nodes == old(nodes)
      ensures old(refused) ==> refused
      ensures !done && !refused ==> !RoomFor(old(nodes), d)
    {
      var refusing: bool := *;
      if refusing {
        refused := true;
        return false;
      }
      if !RoomFor(nodes, d) {
        return false;
      }
      WithDirsIsWellFormed(nodes, d);
      nodes := WithDirs(nodes, d);
      done := true;
    }

    method Rename(from: Path, to: Path) returns (done: bool)
      requires WellFormed(nodes) && to != [] && Apart(from, to)
      modifies this
      ensures WellFormed(nodes)
      ensures done ==> IsDir(old(nodes), from) && nodes == Renamed(old(nodes), from, to)
      ensures !done ==> nodes == old(nodes)
      ensures old(refused) ==> refused
      ensures !done && !refused ==> !(IsDir(old(nodes), from) && to !in old(nodes) && IsDir(old(nodes), Parent(to)))
    {
      var refusing: bool := *;
      if refusing {
        refused := true;
        return false;
      }
      if !(IsDir(nodes, from) && to !in nodes && IsDir(nodes, Parent(to))) {
        return false;
      }
      RenamedIsWellFormed(nodes, from, to);
      nodes := Renamed(nodes, from, to);
      done := true;
    }

    /** Moves each rendering over the directory it replaces. All of them are moved, as they are when each is
        staged, there's room for each and nothing is refused; or those ahead of the one that failed are, and
        nothing but that one's directory, and directories above it, is otherwise changed. */
    method Install(stage: Path, outputs: seq<Output>) returns (failed: Option<nat>)
      requires WellFormed(nodes) && AllApart(stage, outputs)
      modifies this
      ensures WellFormed(nodes)
      ensures failed.None? ==> InstalledTo(old(nodes), nodes, stage, outputs, |outputs|)
      ensures failed.Some? ==> failed.value < |outputs| && PartlyInstalled(old(nodes), nodes, stage, outputs, failed.value)
      ensures old(refused) ==> refused
      ensures failed.None? ==> forall o | o in outputs :: IsDir(old(nodes), Staged(stage, o))
      ensures Installable(old(nodes), stage, outputs) && !refused ==> failed.None?
    {
      hide WellFormed, InstalledTo, PartlyInstalled, AllApart, IsDir, Installable;
      ghost var before := nodes;
      NothingInstalled(before, stage, outputs);
      for k := 0 to |outputs|
        invariant WellFormed(nodes) && InstalledTo(before, nodes, stage, outputs, k)
        invariant old(refused) ==> refused
        invariant forall i | 0 <= i < k :: IsDir(before, Staged(stage, outputs[i]))
      {
        var moved := InstallOne(stage, outputs, k, before);
        if !moved {
          return Some(k);
        }
      }
      failed := None;
    }

    method InstallOne(stage: Path, outputs: seq<Output>, k: nat, ghost before: Nodes) returns (moved: bool)
      requires WellFormed(nodes) && AllApart(stage, outputs)
      requires k < |outputs| && InstalledTo(before, nodes, stage, outputs, k)
      modifies this
      ensures WellFormed(nodes) && (old(refused) ==> refused)
      ensures moved ==> InstalledTo(before, nodes, stage, outputs, k + 1) && IsDir(before, Staged(stage, outputs[k]))
      ensures !moved ==> PartlyInstalled(before, nodes, stage, outputs, k)
      ensures Installable(before, stage, outputs) && !refused ==> moved
    {
      hide WellFormed, InstalledTo, PartlyInstalled, AllApart, Removed, WithDirs, Renamed, Apart, RoomFor, IsDir, IsFile;
      hide Installable, Cleared;
      var tree, staged := outputs[k].tree, Staged(stage, outputs[k]);
      OutputIsApart(stage, outputs, k);
      ghost var reached := nodes;
      StillPartly(before, reached, stage, outputs, k);
      StillInstallable(before, reached, stage, outputs, k);
      var removed := RemoveDirAll(tree);
      if removed.Refused? {
        return false;
      }
      RemovalIsPartly(before, reached, nodes, stage, outputs, k);
      ghost var cleared := nodes;
      RemovalClears(reached, cleared, tree);
      ReadyToRename(reached, cleared, staged, tree);
      StagedWasThere(before, reached, cleared, stage, outputs, k);
      var made := CreateDirAll(Parent(tree));
      if !made {
        return false;
      }
      DirsArePartly(before, cleared, stage, outputs, k);
      moved := Rename(staged, tree);
      if moved {
        OneMoreInstalled(before, reached, cleared, nodes, stage, outputs, k);
      }
    }
  }

  // ----- operations keep every entry in a directory -----

  lemma RemovedIsWellFormed(nodes: Nodes, d: Path)
    requires WellFormed(nodes) && d != []
    ensures WellFormed(Removed(nodes, d))
  {
    forall p | p in Removed(nodes, d) && p != [] ensures !(d <= p[..|p| - 1]) {
      var up := p[..|p| - 1];
      if d <= up {
        Above(d, up, p);
      }
    }
  }

  lemma WithDirsIsWellFormed(nodes: Nodes, d: Path)
    requires WellFormed(nodes) && RoomFor(nodes, d)
    ensures WellFormed(WithDirs(nodes, d)) && d in WithDirs(nodes, d) && WithDirs(nodes, d)[d] == Dir
  {
    var after := WithDirs(nodes, d);
    IsPrefix(d, d);
    forall p | p in after && p != [] ensures p[..|p| - 1] in after && after[p[..|p| - 1]] == Dir {
      IsPrefix(d, p);
      IsPrefix(d, p[..|p| - 1]);
      if p !in nodes {
        assert p[..|p| - 1] == d[..|p| - 1];
      }
    }
  }

  lemma RenamedIsWellFormed(nodes: Nodes, from: Path, to: Path)
    requires WellFormed(nodes) && to != [] && Apart(from, to)
    requires from in nodes && nodes[from].Dir? && to !in nodes && Parent(to) in nodes && nodes[Parent(to)].Dir?
    ensures WellFormed(Renamed(nodes, from, to))
  {
    var after := Renamed(nodes, from, to);
    KeptByRename(nodes, from, to, []);
    hide Renamed, Transplanted;
    forall p | p in after && p != [] {
      RenamedHasParent(nodes, from, to, p);
    }
  }

  lemma RenamedHasParent(nodes: Nodes, from: Path, to: Path, p: Path)
    requires WellFormed(nodes) && to != [] && Apart(from, to) && p in Renamed(nodes, from, to) && p != []
    requires from in nodes && nodes[from].Dir? && to !in nodes && Parent(to) in nodes && nodes[Parent(to)].Dir?
    ensures var up := p[..|p| - 1]; up in Renamed(nodes, from, to) && Renamed(nodes, from, to)[up] == Dir
  {
    hide Renamed, Transplanted, WellFormed;
    RenamedKeys(nodes, from, to, p);
    if p !in Transplanted(nodes, from, to) {
      var up := p[..|p| - 1];
      AncestorsAreDirs(nodes, p, |p| - 1);
      if from <= up {
        Above(from, up, p);
      }
      KeptByRename(nodes, from, to, up);
    } else if p == to {
      AboveApart(from, to, Parent(to));
      KeptByRename(nodes, from, to, Parent(to));
    } else {
      MovedHasParent(nodes, from, to, p);
    }
  }

  lemma RenamedKeys(nodes: Nodes, from: Path, to: Path, p: Path)
    ensures p in Renamed(nodes, from, to) <==> p in Transplanted(nodes, from, to) || (p in nodes && !(from <= p))
  {}

  lemma RenamedMoves(nodes: Nodes, from: Path, to: Path, p: Path)
    requires p in Transplanted(nodes, from, to)
    ensures p in Renamed(nodes, from, to) && Renamed(nodes, from, to)[p] == Transplanted(nodes, from, to)[p]
  {}

  lemma RootIsMoved(nodes: Nodes, from: Path, to: Path)
    requires from in nodes
    ensures to in Transplanted(nodes, from, to) && Transplanted(nodes, from, to)[to] == nodes[from]
  {
    Empty(to);
    Empty(from);
    TransplantedAt(nodes, from, to, []);
  }

  lemma MovedHasParent(nodes: Nodes, from: Path, to: Path, p: Path)
    requires WellFormed(nodes) && p in Transplanted(nodes, from, to) && p != to && p != []
    ensures var up := p[..|p| - 1]; up in Renamed(nodes, from, to) && Renamed(nodes, from, to)[up] == Dir
  {
    hide Renamed, Transplanted;
    TransplantedIsUnder(nodes, from, to, p);
    var r := p[|to|..];
    var up := r[..|r| - 1];
    ParentOfSum(to, r);
    ParentOfSum(from, r);
    assert p == to + r;
    TransplantedAt(nodes, from, to, up);
    RenamedMoves(nodes, from, to, to + up);
  }

  lemma ParentOfSum(a: Path, r: Path)
    requires r != []
    ensures (a + r)[..|a + r| - 1] == a + r[..|r| - 1]
  {}

  lemma KeptByRename(nodes: Nodes, from: Path, to: Path, p: Path)
    requires WellFormed(nodes) && to !in nodes && p in nodes && !(from <= p)
    ensures p in Renamed(nodes, from, to) && Renamed(nodes, from, to)[p] == nodes[p]
  {
    if p in Transplanted(nodes, from, to) {
      NothingBelowNothing(nodes, to, _ => false, p);
    }
  }

  // ----- one output -----

  /** `p` is as it was: the same if it was there, and otherwise a directory above `tree` or not there. */
  ghost predicate AsItWas(before: Nodes, after: Nodes, p: Path, trees: set<Path>) {
    && (p in before ==> p in after && after[p] == before[p])
    && (p in after && p !in before ==> after[p] == Dir && exists t | t in trees :: p <= t)
  }

  /** Trees that are apart from one another and from the stage, staged under names of their own. */
  predicate AllApart(stage: Path, outputs: seq<Output>) {
    && (forall i | 0 <= i < |outputs| :: outputs[i].tree != [] && Apart(stage, outputs[i].tree))
    && (forall i, j | 0 <= i < |outputs| && 0 <= j < |outputs| && i != j ::
          Apart(outputs[i].tree, outputs[j].tree) && outputs[i].staged != outputs[j].staged)
  }

  function Staged(stage: Path, output: Output): Path { stage + [output.staged] }

  lemma OutputIsApart(stage: Path, outputs: seq<Output>, k: nat)
    requires AllApart(stage, outputs) && k < |outputs|
    ensures outputs[k].tree != [] && Apart(Staged(stage, outputs[k]), outputs[k].tree)
  {
    var tree, staged := outputs[k].tree, Staged(stage, outputs[k]);
    assert stage <= staged;
    assert Apart(stage, tree);
    if staged <= tree {
      Above(stage, staged, tree);
    }
    if tree <= staged {
      UnderBoth(stage, tree, staged);
    }
  }

  /** `p` is under none of the first `k` outputs' trees, nor where they were staged. */
  ghost predicate Elsewhere(stage: Path, outputs: seq<Output>, k: nat, p: Path)
    requires k <= |outputs|
  {
    forall i | 0 <= i < k :: !(outputs[i].tree <= p) && !(Staged(stage, outputs[i]) <= p)
  }

  ghost function Trees(outputs: seq<Output>, k: nat): set<Path>
    requires k <= |outputs|
  {
    set i | 0 <= i < k :: outputs[i].tree
  }

  /** The first `k` trees are what was staged for them, and everything else is as it was. */
  ghost predicate InstalledTo(before: Nodes, after: Nodes, stage: Path, outputs: seq<Output>, k: nat)
    requires k <= |outputs|
  {
    && (forall i | 0 <= i < k :: SameUnder(after, outputs[i].tree, before, Staged(stage, outputs[i])))
    && (forall p | Elsewhere(stage, outputs, k, p) :: AsItWas(before, after, p, Trees(outputs, k)))
  }

  /** The trees ahead of `k` are installed, and everything outside the `k`-th tree is as it was. */
  ghost predicate PartlyInstalled(before: Nodes, after: Nodes, stage: Path, outputs: seq<Output>, k: nat)
    requires k < |outputs|
  {
    && (forall i | 0 <= i < k :: SameUnder(after, outputs[i].tree, before, Staged(stage, outputs[i])))
    && (forall p | Elsewhere(stage, outputs, k, p) && !(outputs[k].tree <= p) ::
          AsItWas(before, after, p, Trees(outputs, k + 1)))
  }

  /** Each output is staged, and there's room for its tree. */
  ghost predicate Installable(nodes: Nodes, stage: Path, outputs: seq<Output>) {
    forall o | o in outputs :: IsDir(nodes, Staged(stage, o)) && RoomFor(nodes, o.tree)
  }

  // ----- the steps of one output -----

  /** What could be installed at first can be when its turn comes. */
  lemma StillInstallable(before: Nodes, reached: Nodes, stage: Path, outputs: seq<Output>, k: nat)
    requires k < |outputs| && AllApart(stage, outputs) && InstalledTo(before, reached, stage, outputs, k)
    ensures Installable(before, stage, outputs) ==>
              && IsDir(reached, Staged(stage, outputs[k])) && RoomFor(reached, outputs[k].tree)
              && !IsFile(reached, outputs[k].tree)
  {
    hide SameUnder;
    var s, t := Staged(stage, outputs[k]), outputs[k].tree;
    StagedIsAsItWas(before, reached, stage, outputs, k);
    AtTheRoot(reached, s, before, s);
    forall p | p in reached && p <= t && RoomFor(before, t) ensures reached[p].Dir? {
      forall i | 0 <= i < k ensures !(outputs[i].tree <= p) && !(Staged(stage, outputs[i]) <= p) {
        TreesAreApart(stage, outputs, i, k);
        AboveApart(outputs[i].tree, t, p);
        AboveApart(Staged(stage, outputs[i]), t, p);
      }
      assert Elsewhere(stage, outputs, k, p);
    }
  }

  lemma AboveApart(a: Path, b: Path, p: Path)
    requires Apart(a, b) && p <= b
    ensures !(a <= p)
  {
    if a <= p {
      Above(a, p, b);
    }
  }

  lemma AtTheRoot(a: Nodes, d: Path, b: Nodes, e: Path)
    requires SameUnder(a, d, b, e)
    ensures (d in a <==> e in b) && (d in a ==> a[d] == b[e])
  {
    Empty(d);
    Empty(e);
    var r: Path := [];
    assert d + r in a <==> e + r in b;
  }

  /** Cleared and with the directories above it made, a tree's place is free. */
  lemma ReadyToRename(reached: Nodes, cleared: Nodes, s: Path, t: Path)
    requires Cleared(reached, cleared, t) && t != [] && Apart(s, t)
    ensures RoomFor(reached, t) ==> RoomFor(cleared, Parent(t))
    ensures IsDir(reached, s) ==> IsDir(WithDirs(cleared, Parent(t)), s)
    ensures t !in WithDirs(cleared, Parent(t))
  {
    IsPrefix(Parent(t), t);
    forall p | p in cleared && p <= Parent(t) ensures p <= t {
      Above(p, Parent(t), t);
    }
  }

  /** What's renamed was staged from the start. */
  lemma StagedWasThere(before: Nodes, reached: Nodes, cleared: Nodes, stage: Path, outputs: seq<Output>, k: nat)
    requires k < |outputs| && AllApart(stage, outputs) && InstalledTo(before, reached, stage, outputs, k)
    requires Cleared(reached, cleared, outputs[k].tree)
    ensures outputs[k].tree != []
    ensures var s := Staged(stage, outputs[k]);
            IsDir(WithDirs(cleared, Parent(outputs[k].tree)), s) ==> IsDir(before, s)
  {
    hide SameUnder, InstalledTo;
    var s, t := Staged(stage, outputs[k]), outputs[k].tree;
    OutputIsApart(stage, outputs, k);
    StagedIsAsItWas(before, reached, stage, outputs, k);
    AtTheRoot(reached, s, before, s);
    IsPrefix(Parent(t), s);
    AboveApart(s, t, Parent(t));
  }


  lemma NothingInstalled(before: Nodes, stage: Path, outputs: seq<Output>)
    ensures InstalledTo(before, before, stage, outputs, 0)
  {}

  lemma AsItWasOfMore(before: Nodes, after: Nodes, p: Path, trees: set<Path>, more: set<Path>)
    requires AsItWas(before, after, p, trees) && trees <= more
    ensures AsItWas(before, after, p, more)
  {}

  lemma StillPartly(before: Nodes, reached: Nodes, stage: Path, outputs: seq<Output>, k: nat)
    requires k < |outputs| && InstalledTo(before, reached, stage, outputs, k)
    ensures PartlyInstalled(before, reached, stage, outputs, k)
  {
    hide AsItWas, SameUnder, Elsewhere;
    assert Trees(outputs, k) <= Trees(outputs, k + 1);
    forall p | Elsewhere(stage, outputs, k, p) && !(outputs[k].tree <= p)
      ensures AsItWas(before, reached, p, Trees(outputs, k + 1))
    {
      AsItWasOfMore(before, reached, p, Trees(outputs, k), Trees(outputs, k + 1));
    }
  }

  /** Nothing under `tree` is left, and the rest is the same. */
  ghost predicate Cleared(reached: Nodes, cleared: Nodes, tree: Path) {
    && (forall p :: p in cleared <==> p in reached && !(tree <= p))
    && (forall p | p in cleared :: cleared[p] == reached[p])
  }

  lemma RemovalClears(reached: Nodes, cleared: Nodes, tree: Path)
    requires WellFormed(reached)
    requires cleared == Removed(reached, tree) || (cleared == reached && tree !in reached)
    ensures Cleared(reached, cleared, tree)
  {
    if cleared == reached && tree !in reached {
      forall p | p in reached ensures !(tree <= p) {
        NothingBelowNothing(reached, tree, _ => false, p);
      }
    }
  }

  lemma TreesAreApart(stage: Path, outputs: seq<Output>, i: nat, k: nat)
    requires AllApart(stage, outputs) && i < |outputs| && k < |outputs|
    ensures Apart(Staged(stage, outputs[i]), outputs[k].tree)
    ensures i != k ==> Apart(outputs[i].tree, outputs[k].tree)
    ensures i != k ==> Apart(Staged(stage, outputs[i]), Staged(stage, outputs[k]))
  {
    var tree, staged := outputs[k].tree, Staged(stage, outputs[i]);
    assert stage <= staged;
    if staged <= tree {
      Above(stage, staged, tree);
    }
    if tree <= staged {
      UnderBoth(stage, tree, staged);
    }
    if i != k {
      assert staged[|stage|] != Staged(stage, outputs[k])[|stage|];
    }
  }

  /** Clearing one tree leaves those ahead of it installed. */
  lemma RemovalIsPartly(
      before: Nodes, reached: Nodes, cleared: Nodes, stage: Path, outputs: seq<Output>, k: nat)
    requires k < |outputs| && AllApart(stage, outputs) && WellFormed(reached)
    requires PartlyInstalled(before, reached, stage, outputs, k)
    requires cleared == Removed(reached, outputs[k].tree) || (cleared == reached && outputs[k].tree !in reached)
    ensures PartlyInstalled(before, cleared, stage, outputs, k)
  {
    var tree := outputs[k].tree;
    RemovalClears(reached, cleared, tree);
    forall i | 0 <= i < k ensures SameUnder(cleared, outputs[i].tree, before, Staged(stage, outputs[i])) {
      TreesAreApart(stage, outputs, i, k);
      SameUnderApart(before, Staged(stage, outputs[i]), reached, cleared, outputs[i].tree, tree);
    }
  }

  lemma SameUnderApart(before: Nodes, staged: Path, reached: Nodes, cleared: Nodes, d: Path, tree: Path)
    requires SameUnder(reached, d, before, staged) && Cleared(reached, cleared, tree) && Apart(d, tree)
    ensures SameUnder(cleared, d, before, staged)
  {
    forall r: Path ensures d + r in cleared <==> d + r in reached {
      if tree <= d + r {
        UnderBoth(d, tree, d + r);
      }
    }
  }

  /** So does making the directories above it. */
  lemma DirsArePartly(before: Nodes, cleared: Nodes, stage: Path, outputs: seq<Output>, k: nat)
    requires k < |outputs| && AllApart(stage, outputs)
    requires PartlyInstalled(before, cleared, stage, outputs, k)
    ensures PartlyInstalled(before, WithDirs(cleared, Parent(outputs[k].tree)), stage, outputs, k)
  {
    var tree := outputs[k].tree;
    var dirs := WithDirs(cleared, Parent(tree));
    forall i | 0 <= i < k ensures SameUnder(dirs, outputs[i].tree, before, Staged(stage, outputs[i])) {
      TreesAreApart(stage, outputs, i, k);
      SameUnderDirs(before, Staged(stage, outputs[i]), cleared, outputs[i].tree, tree);
    }
    forall p | Elsewhere(stage, outputs, k, p) && !(tree <= p) ensures AsItWas(before, dirs, p, Trees(outputs, k + 1)) {
      assert AsItWas(before, cleared, p, Trees(outputs, k + 1));
      IsPrefix(Parent(tree), p);
      if p <= Parent(tree) {
        assert p <= tree && tree in Trees(outputs, k + 1);
      }
    }
  }

  lemma SameUnderDirs(before: Nodes, staged: Path, cleared: Nodes, d: Path, tree: Path)
    requires SameUnder(cleared, d, before, staged) && tree != [] && Apart(d, tree)
    ensures SameUnder(WithDirs(cleared, Parent(tree)), d, before, staged)
  {
    forall r: Path ensures d + r in WithDirs(cleared, Parent(tree)) <==> d + r in cleared {
      IsPrefix(Parent(tree), d + r);
      if d + r <= Parent(tree) {
        Above(d, d + r, tree);
      }
    }
  }

  /** What one output's rename leaves at `p`, against what was there before it was cleared. */
  lemma AfterRename(reached: Nodes, cleared: Nodes, s: Path, t: Path, p: Path)
    requires Cleared(reached, cleared, t) && t != [] && Apart(s, t)
    ensures var after := Renamed(WithDirs(cleared, Parent(t)), s, t);
            !(t <= p) && !(s <= p) ==> AsItWas(reached, after, p, {t})
  {
    var dirs := WithDirs(cleared, Parent(t));
    IsPrefix(Parent(t), p);
    if !(t <= p) && !(s <= p) {
      if p in Transplanted(dirs, s, t) {
        TransplantedIsUnder(dirs, s, t, p);
      }
      assert p <= Parent(t) ==> p <= t && t in {t};
    }
  }

  lemma RenamedTreeIsStaged(reached: Nodes, cleared: Nodes, s: Path, t: Path)
    requires Cleared(reached, cleared, t) && t != [] && Apart(s, t)
    ensures SameUnder(Renamed(WithDirs(cleared, Parent(t)), s, t), t, reached, s)
  {
    var dirs := WithDirs(cleared, Parent(t));
    var after := Renamed(dirs, s, t);
    forall r: Path ensures t + r in after <==> s + r in reached
      ensures t + r in after ==> after[t + r] == reached[s + r]
    {
      TransplantedAt(dirs, s, t, r);
      IsPrefix(Parent(t), t + r);
      IsPrefix(Parent(t), s + r);
      if s + r <= Parent(t) {
        Above(s, s + r, t);
      }
      if t <= s + r {
        UnderBoth(s, t, s + r);
      }
      assert t + r !in cleared && !(t + r <= Parent(t));
    }
  }

  /** With the rename the output is installed. */
  lemma OneMoreInstalled(
      before: Nodes, reached: Nodes, cleared: Nodes, after: Nodes, stage: Path, outputs: seq<Output>, k: nat)
    requires k < |outputs| && AllApart(stage, outputs) && WellFormed(reached)
    requires InstalledTo(before, reached, stage, outputs, k)
    requires cleared == Removed(reached, outputs[k].tree) || (cleared == reached && outputs[k].tree !in reached)
    requires after == Renamed(WithDirs(cleared, Parent(outputs[k].tree)), Staged(stage, outputs[k]), outputs[k].tree)
    ensures InstalledTo(before, after, stage, outputs, k + 1)
  {
    var s, t := Staged(stage, outputs[k]), outputs[k].tree;
    hide WellFormed, Removed, WithDirs, Renamed, Apart, Cleared, AllApart;
    assert outputs[k].tree != [] && Apart(s, t) by { OutputIsApart(stage, outputs, k); }
    RemovalClears(reached, cleared, t);
    RenamedTreeIsStaged(reached, cleared, s, t);
    forall i | 0 <= i < k + 1 ensures SameUnder(after, outputs[i].tree, before, Staged(stage, outputs[i])) {
      if i == k {
        StagedIsAsItWas(before, reached, stage, outputs, k);
        SameUnderComposes(after, t, reached, s, before, s);
      } else {
        TreeIsKept(reached, cleared, after, stage, outputs, i, k);
        SameUnderComposes(after, outputs[i].tree, reached, outputs[i].tree, before, Staged(stage, outputs[i]));
      }
    }
    var n := k + 1;
    forall p | Elsewhere(stage, outputs, n, p) ensures AsItWas(before, after, p, Trees(outputs, n)) {
      assert Elsewhere(stage, outputs, k, p);
      AfterRename(reached, cleared, s, t, p);
      TwiceAsItWas(before, reached, after, p, Trees(outputs, k), t, Trees(outputs, n));
    }
  }

  lemma TwiceAsItWas(a: Nodes, b: Nodes, c: Nodes, p: Path, trees: set<Path>, t: Path, more: set<Path>)
    requires AsItWas(a, b, p, trees) && AsItWas(b, c, p, {t}) && trees <= more && t in more
    ensures AsItWas(a, c, p, more)
  {}

  lemma SameUnderComposes(a: Nodes, d: Path, b: Nodes, e: Path, c: Nodes, f: Path)
    requires SameUnder(a, d, b, e) && SameUnder(b, e, c, f)
    ensures SameUnder(a, d, c, f)
  {}

  /** What's staged for an output isn't touched until its turn. */
  lemma StagedIsAsItWas(before: Nodes, reached: Nodes, stage: Path, outputs: seq<Output>, k: nat)
    requires k < |outputs| && AllApart(stage, outputs) && InstalledTo(before, reached, stage, outputs, k)
    ensures SameUnder(reached, Staged(stage, outputs[k]), before, Staged(stage, outputs[k]))
  {
    var s := Staged(stage, outputs[k]);
    forall r: Path ensures AsItWas(before, reached, s + r, {}) {
      forall i | 0 <= i < k
        ensures !(outputs[i].tree <= s + r) && !(Staged(stage, outputs[i]) <= s + r) && !(s + r <= outputs[i].tree)
      {
        TreesAreApart(stage, outputs, k, i);
        ApartFromAll(s, outputs[i].tree, s + r);
        ApartFromAll(s, Staged(stage, outputs[i]), s + r);
      }
      assert Elsewhere(stage, outputs, k, s + r);
    }
  }

  /** What's under one of two paths that are apart is neither under nor above the other. */
  lemma ApartFromAll(a: Path, b: Path, p: Path)
    requires Apart(a, b) && a <= p
    ensures !(b <= p) && !(p <= b)
  {
    if b <= p {
      UnderBoth(a, b, p);
    }
    if p <= b {
      Above(a, p, b);
    }
  }

  /** A tree that's installed isn't touched by the next. */
  lemma TreeIsKept(reached: Nodes, cleared: Nodes, after: Nodes, stage: Path, outputs: seq<Output>, i: nat, k: nat)
    requires i < k < |outputs| && AllApart(stage, outputs)
    requires Cleared(reached, cleared, outputs[k].tree)
    requires after == Renamed(WithDirs(cleared, Parent(outputs[k].tree)), Staged(stage, outputs[k]), outputs[k].tree)
    ensures SameUnder(after, outputs[i].tree, reached, outputs[i].tree)
  {
    hide Cleared, Renamed, WithDirs, AllApart, Apart;
    var s, t, d := Staged(stage, outputs[k]), outputs[k].tree, outputs[i].tree;
    OutputIsApart(stage, outputs, k);
    TreesAreApart(stage, outputs, i, k);
    TreesAreApart(stage, outputs, k, i);
    TreesAreApart(stage, outputs, k, k);
    forall r: Path ensures AsItWas(reached, after, d + r, {}) {
      ApartFromAll(d, t, d + r);
      ApartFromAll(d, s, d + r);
      AfterRename(reached, cleared, s, t, d + r);
    }
  }
}
