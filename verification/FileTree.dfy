/** A file system as a map from component paths to what is there, and its operations on whole directories,
    each of which happens altogether or not at all. */
module FileTree {
  import opened Text

  type Path = seq<string>

  datatype Node = File(contents: string) | Dir

  type Nodes = map<Path, Node>

  /** Every entry is in a directory. */
  ghost predicate WellFormed(nodes: Nodes) {
    && [] in nodes && nodes[[]] == Dir
    && forall p | p in nodes && p != [] :: p[..|p| - 1] in nodes && nodes[p[..|p| - 1]] == Dir
  }

  /** Every directory above an entry is there. */
  lemma {:induction false} AncestorsAreDirs(nodes: Nodes, p: Path, i: nat)
    requires WellFormed(nodes) && p in nodes && i < |p|
    ensures p[..i] in nodes && nodes[p[..i]] == Dir
  {
    if i < |p| - 1 {
      AncestorsAreDirs(nodes, p[..|p| - 1], i);
      assert p[..|p| - 1][..i] == p[..i];
    }
  }

  predicate IsFile(nodes: Nodes, p: Path) { p in nodes && nodes[p].File? }

  predicate IsDir(nodes: Nodes, p: Path) { p in nodes && nodes[p].Dir? }

  /** No file is at `d` or where a directory above it is to be. */
  predicate RoomFor(nodes: Nodes, d: Path) {
    forall p | p in nodes && p <= d :: nodes[p].Dir?
  }

  /** Neither path is the other or above it. */
  predicate Apart(a: Path, b: Path) { !(a <= b) && !(b <= a) }

  lemma UnderBoth(a: Path, b: Path, p: Path)
    requires a <= p && b <= p
    ensures !Apart(a, b)
  {
    if |a| <= |b| {
      assert b[..|a|] == p[..|a|] == a;
    } else {
      assert a[..|b|] == p[..|b|] == b;
    }
  }

  lemma Above(a: Path, p: Path, b: Path)
    requires a <= p && p <= b
    ensures a <= b
  {
    assert b[..|a|] == p[..|a|] == a;
  }

  lemma ShorterIsAbove(a: Path, b: Path, p: Path)
    requires a <= p && b <= p && |a| <= |b|
    ensures a <= b
  {
    assert b[..|a|] == p[..|a|] == a;
  }

  // ----- operations -----

  function Removed(nodes: Nodes, d: Path): Nodes {
    map p | p in nodes && !(d <= p) :: nodes[p]
  }

  function Prefixes(d: Path): set<Path> {
    set i | 0 <= i <= |d| :: d[..i]
  }

  lemma IsPrefix(d: Path, p: Path)
    ensures p in Prefixes(d) <==> p <= d
  {
    if p <= d {
      assert d[..|p|] == p;
    }
  }

  function WithDirs(nodes: Nodes, d: Path): Nodes {
    map p | p in nodes.Keys + Prefixes(d) :: if p in nodes then nodes[p] else Dir
  }

  /** What's under `from`, as it would be under `to`. */
  function Transplanted(nodes: Nodes, from: Path, to: Path): Nodes {
    var keys := set p | p in nodes && from <= p :: to + p[|from|..];
    map q | q in keys && to <= q && from + q[|to|..] in nodes :: nodes[from + q[|to|..]]
  }

  lemma TransplantedAt(nodes: Nodes, from: Path, to: Path, r: Path)
    ensures to + r in Transplanted(nodes, from, to) <==> from + r in nodes
    ensures from + r in nodes ==> Transplanted(nodes, from, to)[to + r] == nodes[from + r]
  {
    Seam(from, r);
    Seam(to, r);
    if to + r in Transplanted(nodes, from, to) {
      assert from + (to + r)[|to|..] in nodes;
    }
    if from + r in nodes {
      assert to + (from + r)[|from|..] == to + r;
    }
  }

  function Renamed(nodes: Nodes, from: Path, to: Path): Nodes {
    Removed(nodes, from) + Transplanted(nodes, from, to)
  }

  lemma TransplantedIsUnder(nodes: Nodes, from: Path, to: Path, p: Path)
    requires p in Transplanted(nodes, from, to)
    ensures to <= p && from + p[|to|..] in nodes
  {}

  /** What's under `d` in one tree is what's under `e` in another. */
  ghost predicate SameUnder(a: Nodes, d: Path, b: Nodes, e: Path) {
    && (forall r: Path :: d + r in a <==> e + r in b)
    && (forall r: Path | d + r in a && e + r in b :: a[d + r] == b[e + r])
  }

  // ----- the files under a directory -----

  ghost function RelativeFiles(nodes: Nodes, d: Path): set<Path> {
    set p | p in nodes && d <= p && nodes[p].File? :: p[|d|..]
  }

  /** Every file under `d`, by its path below `d`. */
  ghost function FilesUnder(nodes: Nodes, d: Path): map<Path, string> {
    map r | r in RelativeFiles(nodes, d) && d + r in nodes && nodes[d + r].File? :: nodes[d + r].contents
  }

  lemma FilesAt(nodes: Nodes, d: Path, r: Path)
    ensures r in FilesUnder(nodes, d) <==> d + r in nodes && nodes[d + r].File?
    ensures r in FilesUnder(nodes, d) ==> FilesUnder(nodes, d)[r] == nodes[d + r].contents
  {
    Seam(d, r);
    if d + r in nodes && nodes[d + r].File? {
      assert (d + r)[|d|..] == r;
    }
  }

  lemma SameTreesHoldSameFiles(a: Nodes, d: Path, b: Nodes, e: Path)
    requires SameUnder(a, d, b, e)
    ensures FilesUnder(a, d) == FilesUnder(b, e)
  {
    forall r ensures r in FilesUnder(a, d) <==> r in FilesUnder(b, e) {
      FilesAt(a, d, r);
      FilesAt(b, e, r);
    }
    forall r | r in FilesUnder(a, d) ensures FilesUnder(a, d)[r] == FilesUnder(b, e)[r] {
      FilesAt(a, d, r);
      FilesAt(b, e, r);
    }
  }

  // ----- reading directories -----

  function Children(nodes: Nodes, d: Path): set<Path> {
    set p | p in nodes && |p| == |d| + 1 && d <= p
  }

  /** How much is under a directory. */
  ghost function Below(nodes: Nodes, d: Path): set<Path> {
    set p | p in nodes && d < p
  }

  lemma ChildHoldsLess(nodes: Nodes, d: Path, c: Path)
    requires c in Children(nodes, d)
    ensures Below(nodes, c) < Below(nodes, d)
  {
    assert d < c;
    forall p | p in Below(nodes, c) ensures p in Below(nodes, d) {
      assert p[..|d|] == c[..|d|];
    }
    assert c in Below(nodes, d) && c !in Below(nodes, c);
  }

  /** The child of `d` on the way to `p`. */
  lemma OnTheWay(nodes: Nodes, d: Path, p: Path) returns (c: Path)
    requires WellFormed(nodes) && p in nodes && d < p
    ensures c in Children(nodes, d) && c <= p && c == p[..|d| + 1]
    ensures c != p ==> nodes[c] == Dir
  {
    c := p[..|d| + 1];
    if c != p {
      AncestorsAreDirs(nodes, p, |d| + 1);
    } else {
      assert c in nodes;
    }
  }
}
