/** The generated directories: routed, rendered into a stage, installed over the tree, or compared with it. */
module GeneratedTrees {
  import opened Text
  import opened FileTree
  import opened Order

  /** A generated directory: its place in the stage, the tree it is to replace and, for a module of a crate,
      the part of the registry that declares its signals. */
  datatype Output = Output(crateDir: Option<Path>, staged: string, tree: Path)

  const OUTPUTS := [
    Output(Some(["application", "run"]), "run",
           ["lablet", "crates", "application", "run", "src", "telemetry", "generated"]),
    Output(None, "docs", ["lablet", "docs", "telemetry"])]

  const REGISTRY: Path := ["lablet", "telemetry", "registry"]

  const CRATE_ROOTS: seq<Path> := [["lablet", "crates"], ["lablet", "apps"]]

  const GENERATED: Path := ["src", "telemetry", "generated"]

  predicate EndsWith(p: Path, suffix: Path) {
    |suffix| <= |p| && p[|p| - |suffix|..] == suffix
  }

  // ----- walking -----

  ghost predicate UnderOne(roots: set<Path>, p: Path) {
    exists c | c in roots :: c <= p
  }

  lemma OneRootMore(roots: set<Path>, c: Path, p: Path)
    ensures UnderOne(roots + {c}, p) <==> UnderOne(roots, p) || c <= p
  {
    if UnderOne(roots, p) {
      var d :| d in roots && d <= p;
      assert d in roots + {c};
    }
    if c <= p {
      assert c in roots + {c};
    }
  }

  /** `p` is a file under `d`, or a directory that is wanted, with nothing wanted and no build directory on
      the way. */
  ghost predicate Reached(nodes: Nodes, d: Path, wanted: Path -> bool, p: Path) {
    && p in nodes && d < p
    && (nodes[p].File? || wanted(p))
    && forall i | |d| < i < |p| :: !wanted(p[..i]) && p[i - 1] != "target"
  }

  /** What's reached through a child: the child when it's a file or wanted, nothing when it's a build
      directory, and otherwise what is reached from it. */
  lemma ReachedVia(nodes: Nodes, d: Path, wanted: Path -> bool, c: Path, p: Path)
    requires WellFormed(nodes) && c in Children(nodes, d)
    ensures Reached(nodes, d, wanted, p) && c <= p
       <==> if nodes[c].File? || wanted(c) then p == c
            else c[|c| - 1] != "target" && Reached(nodes, c, wanted, p)
  {
    assert d < c;
    if p != c && c <= p {
      assert p[..|c|] == c && p[|c| - 1] == c[|c| - 1];
      assert d < p by { assert p[..|d|] == c[..|d|]; }
      NothingBelowAFile(nodes, c);
      if !wanted(c) && c[|c| - 1] != "target" && Reached(nodes, c, wanted, p) {
        forall i | |d| < i < |p| ensures !wanted(p[..i]) && p[i - 1] != "target" {
          assert i == |c| || |c| < i;
        }
      }
    }
  }

  method Walk(nodes: Nodes, d: Path, wanted: Path -> bool) returns (found: Option<set<Path>>)
    requires WellFormed(nodes)
    ensures found.None? <==> d in nodes && nodes[d].File?
    ensures found.Some? ==> forall p :: p in found.value <==> Reached(nodes, d, wanted, p)
    decreases Below(nodes, d)
  {
    hide Reached, UnderOne, WellFormed;
    if d !in nodes {
      forall p ensures !Reached(nodes, d, wanted, p) { NothingBelowNothing(nodes, d, wanted, p); }
      return Some({});
    }
    if nodes[d].File? {
      return None;
    }
    var reached: set<Path> := {};
    var children := Children(nodes, d);
    var todo := children;
    forall p { NoRoots(p); }
    assert children - todo == {};
    while todo != {}
      invariant todo <= children
      invariant forall p :: p in reached <==> Reached(nodes, d, wanted, p) && UnderOne(children - todo, p)
      decreases |todo|
    {
      var c :| c in todo;
      ghost var seen := children - todo;
      assert children - (todo - {c}) == seen + {c};
      forall p { ReachedStep(nodes, d, wanted, seen, c, p); }
      if nodes[c].File? || wanted(c) {
        reached := reached + {c};
      } else if c[|c| - 1] != "target" {
        ChildHoldsLess(nodes, d, c);
        var inner := Walk(nodes, c, wanted);
        reached := reached + inner.value;
      }
      todo := todo - {c};
    }
    assert children - todo == children;
    forall p | Reached(nodes, d, wanted, p) ensures UnderOne(children, p) {
      ReachedIsUnderAChild(nodes, d, wanted, p);
    }
    found := Some(reached);
  }

  lemma ReachedStep(nodes: Nodes, d: Path, wanted: Path -> bool, seen: set<Path>, c: Path, p: Path)
    requires WellFormed(nodes) && c in Children(nodes, d)
    ensures Reached(nodes, d, wanted, p) && UnderOne(seen + {c}, p)
       <==> || (Reached(nodes, d, wanted, p) && UnderOne(seen, p))
            || (if nodes[c].File? || wanted(c) then p == c
                else c[|c| - 1] != "target" && Reached(nodes, c, wanted, p))
  {
    hide Reached, UnderOne;
    OneRootMore(seen, c, p);
    ReachedVia(nodes, d, wanted, c, p);
  }

  lemma NoRoots(p: Path)
    ensures !UnderOne({}, p)
  {}

  lemma NothingBelowNothing(nodes: Nodes, d: Path, wanted: Path -> bool, p: Path)
    requires WellFormed(nodes) && d !in nodes
    ensures !(p in nodes && d <= p) && !Reached(nodes, d, wanted, p)
  {
    if p in nodes && d <= p {
      assert p[..|d|] == d;
      assert |d| < |p| || p == d;
      if |d| < |p| {
        AncestorsAreDirs(nodes, p, |d|);
      }
    }
  }

  lemma ReachedIsUnderAChild(nodes: Nodes, d: Path, wanted: Path -> bool, p: Path)
    requires WellFormed(nodes) && Reached(nodes, d, wanted, p)
    ensures UnderOne(Children(nodes, d), p)
  {
    var c := OnTheWay(nodes, d, p);
  }

  lemma NothingBelowAFile(nodes: Nodes, c: Path)
    requires WellFormed(nodes) && c in nodes
    ensures nodes[c].File? ==> forall p | p in nodes :: !(c < p)
  {
    forall p | p in nodes && c < p ensures nodes[c] == Dir {
      AncestorsAreDirs(nodes, p, |c|);
      assert p[..|c|] == c;
    }
  }

  /** `m` holds the files that stand under one of `roots`, by their paths below `base`. */
  ghost predicate HoldsFiles(nodes: Nodes, base: Path, roots: set<Path>, m: map<Path, string>) {
    && (forall p | p in nodes && nodes[p].File? && base <= p && UnderOne(roots, p) ::
          p[|base|..] in m && m[p[|base|..]] == nodes[p].contents)
    && (forall r | r in m :: base + r in nodes && nodes[base + r] == File(m[r]) && UnderOne(roots, base + r))
  }

  method FilesBelow(nodes: Nodes, base: Path, d: Path) returns (files: Option<map<Path, string>>)
    requires WellFormed(nodes) && base <= d
    ensures files.None? <==> d in nodes && nodes[d].File?
    ensures files.Some? ==> HoldsFiles(nodes, base, {d}, files.value)
    decreases Below(nodes, d)
  {
    hide WellFormed, HoldsFiles, UnderOne;
    if d !in nodes {
      NoFilesBelow(nodes, base, {d});
      return Some(map[]);
    }
    if nodes[d].File? {
      return None;
    }
    var found: map<Path, string> := map[];
    var children := Children(nodes, d);
    var todo := children;
    assert children - todo == {};
    NoFilesBelow(nodes, base, {});
    while todo != {}
      invariant todo <= children
      invariant HoldsFiles(nodes, base, children - todo, found)
      decreases |todo|
    {
      var c :| c in todo;
      ghost var seen := children - todo;
      assert children - (todo - {c}) == seen + {c};
      assert base <= c by { assert c[..|base|] == d[..|base|] == base; }
      if nodes[c].Dir? {
        ChildHoldsLess(nodes, d, c);
        var inner := FilesBelow(nodes, base, c);
        MoreFiles(nodes, base, seen, c, found, inner.value);
        found := found + inner.value;
      } else {
        var relative := c[|base|..];
        OneFile(nodes, base, c, relative);
        MoreFiles(nodes, base, seen, c, found, map[relative := nodes[c].contents]);
        found := found + map[relative := nodes[c].contents];
      }
      todo := todo - {c};
    }
    assert children - todo == children;
    AllUnderChildren(nodes, base, d, found);
    files := Some(found);
  }

  lemma NoFilesBelow(nodes: Nodes, base: Path, roots: set<Path>)
    requires WellFormed(nodes) && forall d | d in roots :: d !in nodes
    ensures HoldsFiles(nodes, base, roots, map[])
  {
    forall d, p | d in roots && p in nodes ensures !(d <= p) {
      NothingBelowNothing(nodes, d, _ => false, p);
    }
  }

  lemma OneFile(nodes: Nodes, base: Path, c: Path, relative: Path)
    requires WellFormed(nodes) && c in nodes && nodes[c].File? && base <= c && relative == c[|base|..]
    ensures HoldsFiles(nodes, base, {c}, map[relative := nodes[c].contents])
  {
    assert base + relative == c;
    NothingBelowAFile(nodes, c);
    assert UnderOne({c}, c) by { assert c in {c}; }
    forall p | p in nodes && UnderOne({c}, p) ensures p == c {
      assert c <= p && !(c < p);
      assert p[..|c|] == c;
    }
  }

  lemma MoreFiles(nodes: Nodes, base: Path, roots: set<Path>, c: Path, a: map<Path, string>, b: map<Path, string>)
    requires HoldsFiles(nodes, base, roots, a) && HoldsFiles(nodes, base, {c}, b)
    ensures HoldsFiles(nodes, base, roots + {c}, a + b)
  {
    forall p ensures UnderOne(roots + {c}, p) <==> UnderOne(roots, p) || UnderOne({c}, p) {
      OneRootMore(roots, c, p);
      OneRootMore({}, c, p);
      assert {} + {c} == {c};
    }
    hide UnderOne;
    forall p | p in nodes && nodes[p].File? && base <= p && UnderOne(roots + {c}, p)
      ensures p[|base|..] in a + b && (a + b)[p[|base|..]] == nodes[p].contents
    {
      assert base + p[|base|..] == p;
    }
  }

  lemma UnderAChild(nodes: Nodes, d: Path, p: Path)
    requires WellFormed(nodes) && d in nodes && nodes[d].Dir? && p in nodes && nodes[p].File?
    ensures UnderOne(Children(nodes, d), p) <==> UnderOne({d}, p)
  {
    if UnderOne({d}, p) {
      assert d <= p && d != p;
      var c := OnTheWay(nodes, d, p);
    }
    if UnderOne(Children(nodes, d), p) {
      var c :| c in Children(nodes, d) && c <= p;
      assert p[..|d|] == c[..|d|] == d;
      assert d in {d};
    }
  }

  lemma SameRoots(nodes: Nodes, base: Path, roots: set<Path>, others: set<Path>, m: map<Path, string>)
    requires forall p | p in nodes && nodes[p].File? :: UnderOne(roots, p) <==> UnderOne(others, p)
    requires HoldsFiles(nodes, base, roots, m)
    ensures HoldsFiles(nodes, base, others, m)
  {
    hide UnderOne;
  }

  lemma AllUnderChildren(nodes: Nodes, base: Path, d: Path, m: map<Path, string>)
    requires WellFormed(nodes) && d in nodes && nodes[d].Dir?
    requires HoldsFiles(nodes, base, Children(nodes, d), m)
    ensures HoldsFiles(nodes, base, {d}, m)
  {
    hide WellFormed, UnderOne, HoldsFiles, Children;
    forall p | p in nodes && nodes[p].File? {
      UnderAChild(nodes, d, p);
    }
    SameRoots(nodes, base, Children(nodes, d), {d}, m);
  }

  /** Every file under `d`, by its path below `d`; a directory that isn't there holds none. */
  method Files(nodes: Nodes, d: Path) returns (files: Option<map<Path, string>>)
    requires WellFormed(nodes)
    ensures files.None? <==> d in nodes && nodes[d].File?
    ensures files.Some? ==> files.value == FilesUnder(nodes, d)
  {
    hide WellFormed, FilesUnder, HoldsFiles;
    files := FilesBelow(nodes, d, d);
    if files.Some? {
      HeldAreUnder(nodes, d, files.value);
    }
  }

  lemma HeldAreUnder(nodes: Nodes, d: Path, m: map<Path, string>)
    requires HoldsFiles(nodes, d, {d}, m)
    ensures m == FilesUnder(nodes, d)
  {
    hide FilesUnder;
    forall r ensures (r in m <==> r in FilesUnder(nodes, d)) && (r in m ==> m[r] == FilesUnder(nodes, d)[r]) {
      FilesAt(nodes, d, r);
      Seam(d, r);
      assert d in {d} && d <= d + r;
      assert UnderOne({d}, d + r);
    }
  }

  // ----- comparing -----

  datatype Difference = OutOfDate(path: Path) | MissingFile(path: Path) | NoLongerGenerated(path: Path)

  ghost predicate IsDifference(rendered: map<Path, string>, inTree: map<Path, string>, line: Difference) {
    match line
    case OutOfDate(p) => p in rendered && p in inTree && rendered[p] != inTree[p]
    case MissingFile(p) => p in rendered && p !in inTree
    case NoLongerGenerated(p) => p !in rendered && p in inTree
  }

  ghost predicate NoneTwice<T>(s: seq<T>) { forall i, j | 0 <= i < j < |s| :: s[i] != s[j] }

  function Slashed(p: Path): string { if p == [] then "" else Joined(p, '/') }

  /** A path is written with a slash between what stands ahead and what comes behind. */
  lemma {:induction false} SlashBetween(a: Path, b: Path)
    ensures Slashed(a + b) == if a == [] then Slashed(b) else if b == [] then Slashed(a) else Slashed(a) + "/" + Slashed(b)
    ensures |a| == 1 ==> Slashed(a) == a[0]
    ensures Slashed([]) == ""
  {
    if a == [] {
      assert a + b == b;
    } else if |a| == 1 {
      assert (a + b)[1..] == b;
    } else {
      SlashBetween(a[1..], b);
      assert (a + b)[1..] == a[1..] + b;
    }
  }

  /** The order of the files: that of their paths as they're written. */
  predicate ByName(a: Path, b: Path) { Before(Slashed(a), Slashed(b)) }

  /** Any two compare, and comparing carries over. */
  ghost predicate Compares(before: (Path, Path) -> bool) {
    && (forall a, b :: before(a, b) || before(b, a))
    && (forall a, b, c :: before(a, b) && before(b, c) ==> before(a, c))
  }

  lemma NamesCompare()
    ensures Compares(ByName)
  {
    forall a, b ensures ByName(a, b) || ByName(b, a) {
      BeforeIsTotal(Slashed(a), Slashed(b));
    }
    forall a, b, c | ByName(a, b) && ByName(b, c) ensures ByName(a, c) {
      BeforeIsTransitive(Slashed(a), Slashed(b), Slashed(c));
    }
  }

  lemma {:induction false} HasLeast(paths: set<Path>, before: (Path, Path) -> bool)
    requires paths != {} && Compares(before)
    ensures exists p :: IsLeast(p, paths, before)
    decreases |paths|
  {
    var x :| x in paths;
    var rest := paths - {x};
    assert paths == rest + {x};
    assert before(x, x);
    if rest == {} {
      assert IsLeast(x, paths, before);
    } else {
      HasLeast(rest, before);
      var y :| IsLeast(y, rest, before);
      assert IsLeast(if before(y, x) then y else x, paths, before);
    }
  }

  predicate IsLeast(p: Path, paths: set<Path>, before: (Path, Path) -> bool) {
    p in paths && forall q | q in paths :: before(p, q)
  }

  method Least(paths: set<Path>, before: (Path, Path) -> bool) returns (least: Path)
    requires paths != {} && Compares(before)
    ensures IsLeast(least, paths, before)
  {
    HasLeast(paths, before);
    least :| IsLeast(least, paths, before);
  }

  /** `list` holds just these, each once, in this order. */
  ghost predicate Lists(list: seq<Path>, paths: set<Path>, before: (Path, Path) -> bool) {
    (forall p :: p in list <==> p in paths) && NoneTwice(list) && IsSorted(list, before)
  }

  lemma NothingListed(list: seq<Path>, paths: set<Path>, before: (Path, Path) -> bool)
    requires Lists(list, paths, before)
    ensures list == [] <==> paths == {}
  {
    if list != [] {
      assert list[0] in paths;
    } else {
      forall p ensures p !in paths {
        assert p !in list;
      }
    }
  }

  lemma NoneListed(before: (Path, Path) -> bool)
    ensures Lists([], {}, before)
  {}

  lemma OneListedMore(
      list: seq<Path>, paths: set<Path>, path: Path, before: (Path, Path) -> bool)
    requires Lists(list, paths, before) && path !in paths && forall l | l in list :: before(l, path)
    ensures Lists(list + [path], paths + {path}, before)
  {}

  method Listed(paths: set<Path>, before: (Path, Path) -> bool) returns (list: seq<Path>)
    requires Compares(before)
    ensures Lists(list, paths, before)
    ensures list == [] <==> paths == {}
  {
    hide Compares, Lists;
    list := [];
    NoneListed(before);
    assert paths - paths == {};
    var todo := paths;
    while todo != {}
      invariant todo <= paths && Lists(list, paths - todo, before)
      invariant forall l, q | l in list && q in todo :: before(l, q)
      decreases |todo|
    {
      var path := Least(todo, before);
      OneListedMore(list, paths - todo, path, before);
      assert paths - todo + {path} == paths - (todo - {path});
      todo := todo - {path};
      list := list + [path];
    }
    assert paths - todo == paths;
    NothingListed(list, paths, before);
  }

  /** The files rendered come first, and of either kind the files in order. */
  ghost predicate InOrder(lines: seq<Difference>) {
    forall i, j | 0 <= i < j < |lines| ::
      if lines[i].NoLongerGenerated? == lines[j].NoLongerGenerated? then ByName(lines[i].path, lines[j].path)
      else lines[j].NoLongerGenerated?
  }

  lemma NoLines()
    ensures NoneTwice<Difference>([]) && InOrder([])
  {}

  lemma OnceMore(lines: seq<Difference>, line: Difference)
    requires InOrder(lines) && NoneTwice(lines)
    ensures && line !in lines
            && (forall l | l in lines :: if l.NoLongerGenerated? == line.NoLongerGenerated? then ByName(l.path, line.path)
                                         else line.NoLongerGenerated?)
            ==> InOrder(lines + [line]) && NoneTwice(lines + [line])
  {
    hide ByName;
  }

  /** `lines` tell of the rendered files outside `todo` that aren't the tree's, and all of those of `todo` come after. */
  ghost predicate Tells(rendered: map<Path, string>, tree: map<Path, string>, lines: seq<Difference>, todo: set<Path>) {
    && (forall line :: line in lines <==>
          IsDifference(rendered, tree, line) && !line.NoLongerGenerated? && line.path !in todo)
    && (forall l, q | l in lines && q in todo :: ByName(l.path, q))
    && NoneTwice(lines) && InOrder(lines)
  }

  lemma NoneTold(rendered: map<Path, string>, tree: map<Path, string>)
    ensures Tells(rendered, tree, [], rendered.Keys)
  {
    NoLines();
  }

  lemma OneTold(rendered: map<Path, string>, tree: map<Path, string>, lines: seq<Difference>, todo: set<Path>, path: Path)
    requires Tells(rendered, tree, lines, todo) && todo <= rendered.Keys && IsLeast(path, todo, ByName)
    ensures path !in tree ==> Tells(rendered, tree, lines + [MissingFile(path)], todo - {path})
    ensures path in tree && tree[path] != rendered[path]
            ==> Tells(rendered, tree, lines + [OutOfDate(path)], todo - {path})
    ensures path in tree && tree[path] == rendered[path] ==> Tells(rendered, tree, lines, todo - {path})
  {
    hide ByName, InOrder, NoneTwice;
    OnceMore(lines, MissingFile(path));
    OnceMore(lines, OutOfDate(path));
  }

  /** A line for each rendered file that isn't the tree's, taking each out of what's in the tree. */
  method RenderedLines(rendered: map<Path, string>, tree: map<Path, string>)
    returns (lines: seq<Difference>, inTree: map<Path, string>)
    ensures inTree == tree - rendered.Keys
    ensures Tells(rendered, tree, lines, {})
  {
    hide ByName, Tells, Compares;
    lines, inTree := [], tree;
    NamesCompare();
    NoneTold(rendered, tree);
    var todo := rendered.Keys;
    while todo != {}
      invariant todo <= rendered.Keys
      invariant inTree == tree - (rendered.Keys - todo)
      invariant Tells(rendered, tree, lines, todo)
      decreases |todo|
    {
      var path := Least(todo, ByName);
      OneTold(rendered, tree, lines, todo, path);
      todo := todo - {path};
      if path !in inTree {
        lines := lines + [MissingFile(path)];
      } else if inTree[path] != rendered[path] {
        lines := lines + [OutOfDate(path)];
      }
      inTree := inTree - {path};
    }
  }

  /** The lines of a comparison, in order, no file twice: none exactly when the two maps are the same. */
  method Differences(rendered: map<Path, string>, tree: map<Path, string>) returns (lines: seq<Difference>)
    ensures forall line :: line in lines <==> IsDifference(rendered, tree, line)
    ensures NoneTwice(lines) && InOrder(lines)
    ensures lines == [] <==> rendered == tree
  {
    hide ByName, InOrder, NoneTwice, Compares;
    NamesCompare();
    var inTree;
    lines, inTree := RenderedLines(rendered, tree);
    var left := inTree.Keys;
    while left != {}
      invariant left <= inTree.Keys
      invariant forall line :: line in lines <==>
                  IsDifference(rendered, tree, line) && (line.NoLongerGenerated? ==> line.path !in left)
      invariant NoneTwice(lines) && InOrder(lines)
      invariant forall l, q | l in lines && q in left && l.NoLongerGenerated? :: ByName(l.path, q)
      decreases |left|
    {
      var path := Least(left, ByName);
      left := left - {path};
      OnceMore(lines, NoLongerGenerated(path));
      lines := lines + [NoLongerGenerated(path)];
    }
    NoDifference(rendered, tree, lines);
  }

  lemma NoDifference(rendered: map<Path, string>, tree: map<Path, string>, lines: seq<Difference>)
    requires forall line :: line in lines <==> IsDifference(rendered, tree, line)
    ensures lines == [] <==> rendered == tree
  {
    if lines == [] {
      forall p ensures p in rendered <==> p in tree {
        assert !IsDifference(rendered, tree, MissingFile(p)) && !IsDifference(rendered, tree, NoLongerGenerated(p));
      }
      forall p | p in rendered ensures rendered[p] == tree[p] {
        assert !IsDifference(rendered, tree, OutOfDate(p));
      }
    } else {
      assert lines[0] in lines;
    }
  }
}
