/** The layer lint in plain terms: which directory is which ring, what a ring may depend on and may not use, what a
    dependency's entry stands for, and that the findings are exactly the breaches of all that. */
module LayerRules {
  import opened Text
  import opened Json
  import opened Layers

  // ----- rings -----

  /** The crates of a ring live in its directory; the two roots are one crate each. */
  predicate LivesIn(path: string, ring: Ring) {
    match ring
    case Domain => "crates/domain/" <= path + "/"
    case Application => "crates/application/" <= path + "/"
    case SecondaryAdapter => "crates/adapters/secondary/" <= path + "/"
    case RootKernel => "apps/shared/" <= path + "/"
    case LibraryRoot => "apps/lablet/" <= path + "/"
    case CliRoot => "apps/lablet-cli/" <= path + "/"
    case TestSupport => "tests/" <= path + "/"
  }

  lemma RingsByDirectory(path: string, ring: Ring)
    ensures Classify(path) == Some(ring) <==> LivesIn(path, ring)
  {
    hide Classify;
    var k: nat := match ring
                  case Domain => 0 case Application => 1 case SecondaryAdapter => 2 case RootKernel => 3
                  case LibraryRoot => 4 case CliRoot => 5 case TestSupport => 6;
    assert RINGS[k].1 == ring && (RINGS[k].0 <= path + "/" <==> LivesIn(path, ring));
    if RINGS[k].0 <= path + "/" {
      RingIsUnique(path, k, k);
    }
    if Classify(path) == Some(ring) {
      var j := RingOf(path);
      OneDirectoryEach(j, k);
    }
  }

  lemma RingOf(path: string) returns (k: nat)
    requires Classify(path).Some?
    ensures k < |RINGS| && RINGS[k].0 <= path + "/" && Classify(path) == Some(RINGS[k].1)
  {
    k :| k < |RINGS| && RINGS[k].0 <= path + "/" && Classify(path).value == RINGS[k].1;
  }

  lemma OneDirectoryEach(j: nat, k: nat)
    requires j < |RINGS| && k < |RINGS| && RINGS[j].1 == RINGS[k].1
    ensures j == k
  {}

  // ----- edges -----

  /** Inward only; a root and a kernel may use everything but the roots, tests anything, and an adapter besides
      the application and the domain a kernel beside it. */
  predicate Permits(from: Ring, to: Ring, toPath: string) {
    match from
    case Domain | Application => to == Domain
    case SecondaryAdapter =>
      to == Domain || to == Application
      || (to == SecondaryAdapter && "crates/adapters/secondary/shared/" <= toPath)
    case RootKernel | LibraryRoot | CliRoot => to !in {LibraryRoot, CliRoot, TestSupport}
    case TestSupport => true
  }

  lemma EdgesInPlain(from: Ring, to: Ring, toPath: string)
    ensures EdgePermitted(from, to, IsKernel(toPath)) <==> Permits(from, to, toPath)
  {
    if from.TestSupport? {
      var k: nat := match to
                    case Domain => 0 case Application => 1 case SecondaryAdapter => 2 case RootKernel => 3
                    case LibraryRoot => 4 case CliRoot => 5 case TestSupport => 6;
      assert from.MayDependOn()[k] == to;
    } else if from in {RootKernel, LibraryRoot, CliRoot} && to !in {LibraryRoot, CliRoot, TestSupport} {
      var k := if to.Domain? then 0 else if to.Application? then 1 else if to.SecondaryAdapter? then 2 else 3;
      assert from.MayDependOn()[k] == to;
    } else if from.SecondaryAdapter? && (to.Domain? || to.Application?) {
      assert from.MayDependOn()[if to.Domain? then 1 else 0] == to;
    } else if to.Domain? {
      assert from.MayDependOn()[0] == to;
    }
  }

  // ----- families -----

  predicate IsDash(c: char) { c == '-' || c == '_' }

  /** A part of a crate's name, between dashes of either kind. */
  ghost predicate IsPart(part: string, name: string) {
    exists i: nat, j: nat :: StandsAlone(name, IsDash, part, i, j)
  }

  ghost predicate MayNotUse(ring: Ring, name: string) {
    match ring
    case Domain =>
      exists part | IsPart(part, name) ::
        part in {"tokio", "reqwest", "tracing", "opentelemetry", "rmcp", "tonic", "axum", "hyper"}
    case Application =>
      || (exists part | IsPart(part, name) :: part in {"tokio", "reqwest", "rmcp", "tonic", "axum", "hyper"})
      || (IsPart("opentelemetry", name) && name != "opentelemetry")
    case SecondaryAdapter | RootKernel | LibraryRoot => IsPart("opentelemetry", name) && name != "opentelemetry"
    case CliRoot | TestSupport => false
  }

  predicate HoldsNoDash(s: string) { forall c | c in s :: !IsDash(c) }

  lemma PartsFolded(part: string, name: string)
    requires HoldsNoDash(part)
    ensures part in SplitWhere(Normalised(name), IsUnderscore) <==> IsPart(part, name)
  {
    var folded := Normalised(name);
    PartsAreStretches(folded, IsUnderscore, part);
    forall i: nat, j: nat
      ensures StandsAlone(folded, IsUnderscore, part, i, j) <==> StandsAlone(name, IsDash, part, i, j)
    {
      Folded(part, name, i, j);
    }
  }

  lemma Folded(part: string, name: string, i: nat, j: nat)
    requires HoldsNoDash(part)
    ensures StandsAlone(Normalised(name), IsUnderscore, part, i, j) <==> StandsAlone(name, IsDash, part, i, j)
  {
    var folded := Normalised(name);
    assert forall k | 0 <= k < |name| :: IsUnderscore(folded[k]) <==> IsDash(name[k]);
    if i <= j <= |name| {
      if folded[i..j] == part {
        forall k | i <= k < j ensures name[k] == part[k - i] {
          assert folded[i..j][k - i] == part[k - i] && part[k - i] in part;
        }
        assert name[i..j] == part;
      }
      if name[i..j] == part {
        forall k | i <= k < j ensures folded[k] == part[k - i] {
          assert name[i..j][k - i] == part[k - i] && part[k - i] in part;
        }
        assert folded[i..j] == part;
      }
    }
  }

  lemma WholeFolded(family: string, name: string)
    requires HoldsNoDash(family)
    ensures Normalised(name) == family <==> name == family
  {
    var folded := Normalised(name);
    if folded == family {
      forall k | 0 <= k < |name| ensures name[k] == family[k] {
        assert folded[k] == family[k] && family[k] in family;
      }
    }
    if name == family {
      forall k | 0 <= k < |name| ensures folded[k] == family[k] {
        assert name[k] == family[k] && family[k] in family;
      }
    }
  }

  lemma HitsInPlain(family: Family, name: string)
    requires HoldsNoDash(family.name)
    ensures Hits(family, Normalised(name))
       <==> IsPart(family.name, name) && !(family.namesake == Allowed && name == family.name)
  {
    hide SplitWhere, Normalised, IsPart;
    PartsFolded(family.name, name);
    WholeFolded(family.name, name);
  }

  lemma NamesHoldNoDash()
    ensures HoldsNoDash("tokio") && HoldsNoDash("reqwest") && HoldsNoDash("tracing") && HoldsNoDash("opentelemetry")
    ensures HoldsNoDash("rmcp") && HoldsNoDash("tonic") && HoldsNoDash("axum") && HoldsNoDash("hyper")
  {}

  lemma FamiliesByPart(ring: Ring, name: string)
    ensures ForbiddenFamily(ring, name).Some? <==> IsOfOne(ring.ForbiddenFamilies(), name)
    ensures ForbiddenFamily(ring, name).Some? ==> IsPart(ForbiddenFamily(ring, name).value, name)
  {
    hide ForbiddenFamily, Hits, Normalised, IsPart, HoldsNoDash, Ring.ForbiddenFamilies;
    ForbiddenByAFamily(ring, name);
    forall family | family in ring.ForbiddenFamilies()
      ensures Hits(family, Normalised(name))
         <==> IsPart(family.name, name) && !(family.namesake == Allowed && name == family.name)
    {
      NameHoldsNoDash(ring, family);
      HitsInPlain(family, name);
    }
  }

  lemma NameHoldsNoDash(ring: Ring, family: Family)
    requires family in ring.ForbiddenFamilies()
    ensures HoldsNoDash(family.name)
  {
    hide HoldsNoDash;
    NamesHoldNoDash();
  }

  /** What a ring may not use, in terms of the name's parts alone, of which the family told is one. */
  lemma FamiliesInPlain(ring: Ring, name: string)
    ensures ForbiddenFamily(ring, name).Some? <==> MayNotUse(ring, name)
    ensures ForbiddenFamily(ring, name).Some? ==> IsPart(ForbiddenFamily(ring, name).value, name)
  {
    hide ForbiddenFamily, Ring.ForbiddenFamilies, MayNotUse, IsOfOne;
    FamiliesByPart(ring, name);
    match ring {
      case Domain => DomainFamilies(name);
      case Application => ApplicationFamilies(name);
      case _ => OtherFamilies(ring, name);
    }
  }

  /** A family the ring forbids, its namesake aside, has its name among the parts. */
  ghost predicate IsOfOne(families: seq<Family>, name: string) {
    exists family | family in families :: IsPart(family.name, name) && !(family.namesake == Allowed && name == family.name)
  }

  lemma OtherFamilies(ring: Ring, name: string)
    requires ring !in {Domain, Application}
    ensures IsOfOne(ring.ForbiddenFamilies(), name) <==> MayNotUse(ring, name)
  {
    hide IsPart;
    var families := ring.ForbiddenFamilies();
    assert families == [] || families == [Family("opentelemetry", Allowed)];
    if families != [] {
      assert families[0] in families;
    }
  }

  /** A list of families forbidden whole, by their names. */
  ghost predicate AreWhole(families: seq<Family>, names: set<string>) {
    && (forall family | family in families :: family.namesake == Forbidden && family.name in names)
    && (forall n | n in names :: Family(n, Forbidden) in families)
  }

  lemma WholeFamilies(families: seq<Family>, names: set<string>, name: string)
    requires AreWhole(families, names)
    ensures IsOfOne(families, name) <==> exists part | IsPart(part, name) :: part in names
  {
    hide IsPart;
    if part :| IsPart(part, name) && part in names {
      assert Family(part, Forbidden).name == part;
    }
  }

  lemma WholeByIndex(families: seq<Family>, names: seq<string>)
    requires |families| == |names| && forall k | 0 <= k < |names| :: families[k] == Family(names[k], Forbidden)
    ensures AreWhole(families, (set n | n in names))
  {
    forall n | n in names ensures Family(n, Forbidden) in families {
      var k :| 0 <= k < |names| && names[k] == n;
      assert families[k] in families;
    }
  }

  const DOMAIN_NAMES := ["tokio", "reqwest", "tracing", "opentelemetry", "rmcp", "tonic", "axum", "hyper"]

  lemma DomainNames()
    ensures (set n | n in DOMAIN_NAMES)
         == {"tokio", "reqwest", "tracing", "opentelemetry", "rmcp", "tonic", "axum", "hyper"}
  {
    var all, names := (set n | n in DOMAIN_NAMES), DOMAIN_NAMES;
    assert names[0] in all && names[1] in all && names[2] in all && names[3] in all;
    assert names[4] in all && names[5] in all && names[6] in all && names[7] in all;
  }

  lemma DomainIsWhole()
    ensures AreWhole(Domain.ForbiddenFamilies(), (set n | n in DOMAIN_NAMES))
  {
    hide AreWhole;
    WholeByIndex(Domain.ForbiddenFamilies(), DOMAIN_NAMES);
  }

  lemma DomainFamilies(name: string)
    ensures IsOfOne(Domain.ForbiddenFamilies(), name) <==> MayNotUse(Domain, name)
  {
    hide IsPart, IsOfOne, AreWhole, Ring.ForbiddenFamilies;
    DomainIsWhole();
    DomainNames();
    WholeFamilies(Domain.ForbiddenFamilies(), (set n | n in DOMAIN_NAMES), name);
  }

  lemma ApplicationFamilies(name: string)
    ensures IsOfOne(Application.ForbiddenFamilies(), name) <==> MayNotUse(Application, name)
  {
    hide IsPart, IsOfOne, AreWhole;
    var names := ["tokio", "reqwest", "rmcp", "tonic", "axum", "hyper"];
    var families, last := Application.ForbiddenFamilies(), Family("opentelemetry", Allowed);
    assert families == families[..6] + [last];
    WholeByIndex(families[..6], names);
    var all := set n | n in names;
    WholeFamilies(families[..6], all, name);
    assert all == {"tokio", "reqwest", "rmcp", "tonic", "axum", "hyper"};
    OneFamilyMore(families[..6], last, name);
  }

  lemma OneFamilyMore(families: seq<Family>, last: Family, name: string)
    ensures IsOfOne(families + [last], name)
       <==> || IsOfOne(families, name)
            || (IsPart(last.name, name) && !(last.namesake == Allowed && name == last.name))
  {
    hide IsPart;
    assert last in families + [last];
  }

  // ----- what an entry stands for -----

  /** Spelled alike, but for the kind of dash. */
  predicate SameCrate(a: string, b: string) {
    |a| == |b| && forall i | 0 <= i < |a| :: a[i] == b[i] || (IsDash(a[i]) && IsDash(b[i]))
  }

  lemma SameFolded(a: string, b: string)
    ensures Normalised(a) == Normalised(b) <==> SameCrate(a, b)
  {
    if Normalised(a) == Normalised(b) {
      assert |a| == |Normalised(a)| == |b|;
      forall i | 0 <= i < |a| ensures a[i] == b[i] || (IsDash(a[i]) && IsDash(b[i])) {
        assert Normalised(a)[i] == Normalised(b)[i];
      }
    }
  }

  /** The name a registry crate goes by: its entry's `package`, where that's a text, or its key. */
  function RealName(key: string, entry: Value): string {
    match Get(entry, "package")
    case Some(Str(package)) => package
    case _ => key
  }

  /** The first of the members with its path. */
  ghost predicate IsFirstAt(members: seq<Member>, m: Member) {
    exists i: nat | i < |members| :: members[i] == m && forall j | 0 <= j < i :: members[j].path != m.path
  }

  /** What a key of a manifest stands for. */
  ghost predicate StandsFor(ws: Workspace, key: string, spec: Value, d: Dependency) {
    var inherited := Get(spec, "workspace") == Some(Bool(true));
    match d
    case Gap(NotInherited) => !inherited
    case Gap(NoEntry) => inherited && key !in ws.dependencies
    case Gap(PathIsNoMember) =>
      && inherited && key in ws.dependencies && Get(ws.dependencies[key], "path").Some?
      && forall m | m in ws.members :: Get(ws.dependencies[key], "path") != Some(Str(m.path))
    case Gap(SharesAMembersName) =>
      && inherited && key in ws.dependencies && Get(ws.dependencies[key], "path").None?
      && exists m | m in ws.members :: SameCrate(m.name, RealName(key, ws.dependencies[key]))
    case Internal(target) =>
      && inherited && key in ws.dependencies
      && Get(ws.dependencies[key], "path") == Some(Str(target.path)) && IsFirstAt(ws.members, target)
    case External(name) =>
      && inherited && key in ws.dependencies && Get(ws.dependencies[key], "path").None?
      && name == RealName(key, ws.dependencies[key])
      && forall m | m in ws.members :: !SameCrate(m.name, name)
  }

  /** An entry is resolved to just what it stands for. */
  lemma ResolvesInPlain(ws: Workspace, key: string, spec: Value, d: Dependency)
    ensures Resolve(ws, key, spec) == d <==> StandsFor(ws, key, spec, d)
  {
    hide Normalised, SameCrate;
    if key in ws.dependencies {
      var entry := ws.dependencies[key];
      forall m | m in ws.members
        ensures Normalised(m.name) == Normalised(RealName(key, entry)) <==> SameCrate(m.name, RealName(key, entry))
      {
        SameFolded(m.name, RealName(key, entry));
      }
      match Get(entry, "path")
      case Some(Str(path)) => FoundAtPath(ws.members, path);
      case _ =>
    }
    assert StandsFor(ws, key, spec, Resolve(ws, key, spec));
    if StandsFor(ws, key, spec, d) {
      StandsForOne(ws, key, spec, d, Resolve(ws, key, spec));
    }
  }

  lemma StandsForOne(ws: Workspace, key: string, spec: Value, d: Dependency, e: Dependency)
    requires StandsFor(ws, key, spec, d) && StandsFor(ws, key, spec, e)
    ensures d == e
  {
    hide SameCrate;
    if d.Internal? {
      FirstIsOne(ws.members, d.member, e.member);
    }
  }

  lemma FirstIsOne(members: seq<Member>, m: Member, n: Member)
    requires IsFirstAt(members, m) && IsFirstAt(members, n) && m.path == n.path
    ensures m == n
  {}

  lemma {:induction false} FoundAtPath(members: seq<Member>, path: string)
    ensures AtPath(members, path).None? <==> forall m | m in members :: m.path != path
    ensures AtPath(members, path).Some? ==> IsFirstAt(members, AtPath(members, path).value)
  {
    if members != [] && members[0].path != path {
      FoundAtPath(members[1..], path);
      var found := AtPath(members[1..], path);
      if found.Some? {
        var i: nat :| i < |members[1..]| && members[1..][i] == found.value
                      && forall j | 0 <= j < i :: members[1..][j].path != found.value.path;
        assert members[i + 1] == found.value;
        forall j | 0 <= j < i + 1 ensures members[j].path != found.value.path {
          assert j > 0 ==> members[j] == members[1..][j - 1];
        }
      }
    } else if members != [] {
      assert members[0] == AtPath(members, path).value;
    }
  }

  // ----- the findings -----

  /** An entry of a member's manifest, in a section of that header. */
  ghost predicate Declares(ws: Workspace, member: Member, section: Section, key: string, spec: Value) {
    member in ws.members && section in member.sections && (key, spec) in section.entries
  }

  /** What is to be found: a member outside every ring; in one, an entry that can't be judged, and outside the
      dev sections a member that isn't permitted and a crate that isn't allowed. */
  ghost predicate IsBreach(ws: Workspace, finding: Finding) {
    match finding
    case InNoRing(member) => member in ws.members && forall ring :: !LivesIn(member.path, ring)
    case CannotJudge(member, header, key, why) =>
      exists section, spec | Declares(ws, member, section, key, spec) ::
        && (exists ring :: LivesIn(member.path, ring))
        && section.header == header && StandsFor(ws, key, spec, Gap(why))
    case WrongEdge(member, header, target) =>
      exists section, key, spec | Declares(ws, member, section, key, spec) ::
        && section.header == header && !section.dev && StandsFor(ws, key, spec, Internal(target))
        && exists ring, to :: LivesIn(member.path, ring) && LivesIn(target.path, to) && !Permits(ring, to, target.path)
    case WrongFamily(member, header, name, family) =>
      exists section, key, spec | Declares(ws, member, section, key, spec) ::
        && section.header == header && !section.dev && StandsFor(ws, key, spec, External(name))
        && exists ring :: LivesIn(member.path, ring) && MayNotUse(ring, name) && ForbiddenFamily(ring, name) == Some(family)
  }

  lemma {:induction false} InEntries(
      ws: Workspace, member: Member, ring: Ring, section: Section, entries: seq<(string, Value)>, f: Finding)
    ensures f in OfEntries(ws, member, ring, section, entries)
       <==> exists key, spec | (key, spec) in entries :: f in Judged(ws, member, ring, section, key, spec)
  {
    hide Judged;
    if entries != [] {
      var init, last := entries[..|entries| - 1], entries[|entries| - 1];
      InEntries(ws, member, ring, section, init, f);
      assert entries == init + [last] && last == (last.0, last.1);
      if f in Judged(ws, member, ring, section, last.0, last.1) {
        assert (last.0, last.1) in entries;
      }
    }
  }

  /** Where a finding of a member in a ring comes from. */
  ghost predicate ComesFrom(ws: Workspace, member: Member, ring: Ring, sections: seq<Section>, f: Finding) {
    exists section, key, spec | section in sections && (key, spec) in section.entries ::
      f in Judged(ws, member, ring, section, key, spec)
  }

  lemma {:induction false} InSections(ws: Workspace, member: Member, ring: Ring, sections: seq<Section>, f: Finding)
    ensures f in OfSections(ws, member, ring, sections) <==> ComesFrom(ws, member, ring, sections, f)
  {
    hide Judged, OfEntries;
    if sections != [] {
      var init, last := sections[..|sections| - 1], sections[|sections| - 1];
      InSections(ws, member, ring, init, f);
      InEntries(ws, member, ring, last, last.entries, f);
      assert forall section :: section in sections <==> section in init || section == last;
    }
  }

  lemma {:induction false} InMembers(ws: Workspace, members: seq<Member>, f: Finding)
    ensures f in OfMembers(ws, members) <==> exists member | member in members :: f in OfMember(ws, member)
  {
    hide OfMember;
    if members != [] {
      var init, last := members[..|members| - 1], members[|members| - 1];
      InMembers(ws, init, f);
      assert forall member :: member in members <==> member in init || member == last;
    }
  }

  /** `f` is what this entry of a member in `ring` comes to. */
  ghost predicate IsFound(
      ws: Workspace, member: Member, ring: Ring, section: Section, key: string, spec: Value, f: Finding)
  {
    match f
    case InNoRing(_) => false
    case CannotJudge(m, header, k, why) =>
      m == member && header == section.header && k == key && StandsFor(ws, key, spec, Gap(why))
    case WrongEdge(m, header, target) =>
      && m == member && header == section.header && !section.dev
      && StandsFor(ws, key, spec, Internal(target))
      && exists to :: LivesIn(target.path, to) && !Permits(ring, to, target.path)
    case WrongFamily(m, header, name, family) =>
      && m == member && header == section.header && !section.dev
      && StandsFor(ws, key, spec, External(name))
      && MayNotUse(ring, name) && ForbiddenFamily(ring, name) == Some(family)
  }

  /** What one entry comes to, in plain terms. */
  lemma JudgedInPlain(
      ws: Workspace, member: Member, ring: Ring, section: Section, key: string, spec: Value, f: Finding)
    ensures f in Judged(ws, member, ring, section, key, spec) <==> IsFound(ws, member, ring, section, key, spec, f)
  {
    hide Resolve, StandsFor, Classify, ForbiddenFamily, EdgePermitted, Permits, LivesIn, MayNotUse, IsKernel;
    match f
    case InNoRing(_) =>
    case CannotJudge(_, _, _, why) => ResolvesInPlain(ws, key, spec, Gap(why));
    case WrongEdge(_, _, target) =>
      ResolvesInPlain(ws, key, spec, Internal(target));
      forall to ensures Classify(target.path) == Some(to) <==> LivesIn(target.path, to) {
        RingsByDirectory(target.path, to);
      }
      forall to ensures EdgePermitted(ring, to, IsKernel(target.path)) <==> Permits(ring, to, target.path) {
        EdgesInPlain(ring, to, target.path);
      }
    case WrongFamily(_, _, name, family) =>
      ResolvesInPlain(ws, key, spec, External(name));
      FamiliesInPlain(ring, name);
  }

  lemma OfMemberInPlain(ws: Workspace, member: Member, f: Finding)
    ensures f in OfMember(ws, member) <==>
              || (f == InNoRing(member) && forall ring :: !LivesIn(member.path, ring))
              || exists ring :: LivesIn(member.path, ring) && ComesFrom(ws, member, ring, member.sections, f)
  {
    hide Classify, LivesIn, OfSections, ComesFrom;
    forall ring ensures Classify(member.path) == Some(ring) <==> LivesIn(member.path, ring) {
      RingsByDirectory(member.path, ring);
    }
    match Classify(member.path)
    case None =>
    case Some(ring) => InSections(ws, member, ring, member.sections, f);
  }

  lemma FindingsNameTheirMember(ws: Workspace, member: Member, f: Finding)
    ensures f in OfMember(ws, member) ==> f.member == member
  {
    hide Classify, Resolve, ForbiddenFamily, EdgePermitted, IsKernel, OfSections;
    match Classify(member.path)
    case None =>
    case Some(ring) => InSections(ws, member, ring, member.sections, f);
  }

  /** What is found of a member in a ring. */
  ghost predicate IsFoundIn(ws: Workspace, member: Member, ring: Ring, f: Finding) {
    exists section, key, spec | section in member.sections && (key, spec) in section.entries ::
      IsFound(ws, member, ring, section, key, spec, f)
  }

  lemma ComesFromInPlain(ws: Workspace, member: Member, ring: Ring, f: Finding)
    ensures ComesFrom(ws, member, ring, member.sections, f) <==> IsFoundIn(ws, member, ring, f)
  {
    hide Judged, IsFound;
    forall section, key, spec
      ensures f in Judged(ws, member, ring, section, key, spec) <==> IsFound(ws, member, ring, section, key, spec, f)
    {
      JudgedInPlain(ws, member, ring, section, key, spec, f);
    }
  }

  lemma BreachIsFound(ws: Workspace, f: Finding)
    requires f.member in ws.members && IsBreach(ws, f) && !f.InNoRing?
    ensures exists ring :: LivesIn(f.member.path, ring) && IsFoundIn(ws, f.member, ring, f)
  {
    hide LivesIn, StandsFor, Permits, MayNotUse, ForbiddenFamily, IsFoundIn;
    match f
    case CannotJudge(member, header, key, why) =>
      var section, spec :| Declares(ws, member, section, key, spec) && (exists ring :: LivesIn(member.path, ring))
                           && section.header == header && StandsFor(ws, key, spec, Gap(why));
      var ring :| LivesIn(member.path, ring);
      FoundIn(ws, member, ring, section, key, spec, f);
    case WrongEdge(member, header, target) =>
      var section, key, spec :| Declares(ws, member, section, key, spec)
        && section.header == header && !section.dev && StandsFor(ws, key, spec, Internal(target))
        && exists ring, to :: LivesIn(member.path, ring) && LivesIn(target.path, to) && !Permits(ring, to, target.path);
      var ring, to :| LivesIn(member.path, ring) && LivesIn(target.path, to) && !Permits(ring, to, target.path);
      FoundIn(ws, member, ring, section, key, spec, f);
    case WrongFamily(member, header, name, family) =>
      var section, key, spec :| Declares(ws, member, section, key, spec)
        && section.header == header && !section.dev && StandsFor(ws, key, spec, External(name))
        && exists ring ::
             LivesIn(member.path, ring) && MayNotUse(ring, name) && ForbiddenFamily(ring, name) == Some(family);
      var ring :| LivesIn(member.path, ring) && MayNotUse(ring, name) && ForbiddenFamily(ring, name) == Some(family);
      FoundIn(ws, member, ring, section, key, spec, f);
  }

  lemma FoundIn(ws: Workspace, member: Member, ring: Ring, section: Section, key: string, spec: Value, f: Finding)
    requires Declares(ws, member, section, key, spec) && IsFound(ws, member, ring, section, key, spec, f)
    ensures IsFoundIn(ws, member, ring, f)
  {
    hide IsFound;
  }

  lemma FoundIsABreach(ws: Workspace, ring: Ring, f: Finding)
    requires f.member in ws.members && LivesIn(f.member.path, ring) && IsFoundIn(ws, f.member, ring, f)
    ensures IsBreach(ws, f)
  {
    hide LivesIn, StandsFor, Permits, MayNotUse, ForbiddenFamily;
    var section, key, spec :| section in f.member.sections && (key, spec) in section.entries
                              && IsFound(ws, f.member, ring, section, key, spec, f);
    assert Declares(ws, f.member, section, key, spec);
  }

  lemma BreachOf(ws: Workspace, f: Finding)
    requires f.member in ws.members
    ensures f in OfMember(ws, f.member) <==> IsBreach(ws, f)
  {
    hide LivesIn, OfMember, ComesFrom, IsFoundIn, IsBreach;
    OfMemberInPlain(ws, f.member, f);
    forall ring ensures ComesFrom(ws, f.member, ring, f.member.sections, f) <==> IsFoundIn(ws, f.member, ring, f) {
      ComesFromInPlain(ws, f.member, ring, f);
    }
    if f.InNoRing? {
      NoRingIsABreach(ws, f);
    } else if IsBreach(ws, f) {
      BreachIsFound(ws, f);
    } else {
      forall ring | LivesIn(f.member.path, ring) ensures !IsFoundIn(ws, f.member, ring, f) {
        if IsFoundIn(ws, f.member, ring, f) {
          FoundIsABreach(ws, ring, f);
        }
      }
    }
  }

  lemma NoRingIsABreach(ws: Workspace, f: Finding)
    requires f.InNoRing? && f.member in ws.members
    ensures IsBreach(ws, f) <==> forall ring :: !LivesIn(f.member.path, ring)
    ensures forall ring :: !IsFoundIn(ws, f.member, ring, f)
  {
    hide LivesIn;
  }

  /** The lint finds exactly the breaches. */
  lemma FindingsAreTheBreaches(ws: Workspace, f: Finding)
    ensures f in OfMembers(ws, ws.members) <==> IsBreach(ws, f)
  {
    hide OfMember, IsBreach;
    InMembers(ws, ws.members, f);
    forall member | member in ws.members ensures f in OfMember(ws, member) ==> f.member == member {
      FindingsNameTheirMember(ws, member, f);
    }
    if f.member in ws.members {
      BreachOf(ws, f);
    } else {
      BreachHasMember(ws, f);
    }
  }

  lemma BreachHasMember(ws: Workspace, f: Finding)
    ensures IsBreach(ws, f) ==> f.member in ws.members
  {
    hide LivesIn, StandsFor, Permits, MayNotUse, ForbiddenFamily;
  }
  // ----- chains, by directory -----

  /** Nothing that a crate of the library root reaches, itself among them, depends on the OpenTelemetry SDK. */
  lemma TheLibraryReachesNoSdk(ws: Workspace, chain: seq<Member>)
    requires OfMembers(ws, ws.members) == [] && chain != [] && chain[0] in ws.members
    requires |chain| >= 2 ==> Chain(ws, chain)
    requires "apps/lablet/" <= chain[0].path + "/"
    ensures !Uses(ws, chain[|chain| - 1], "opentelemetry_sdk")
  {
    hide Classify, Uses, OfMembers, Chain;
    RingsByDirectory(chain[0].path, LibraryRoot);
    TheSdkIsOutOfReach(ws, chain);
  }

  /** What the domain and the application reach is the domain, and nothing outside the tests reaches a root. */
  lemma DirectoriesKeepTheArchitecture(ws: Workspace, chain: seq<Member>)
    requires OfMembers(ws, ws.members) == [] && Chain(ws, chain)
    ensures var from, to := chain[0].path + "/", chain[|chain| - 1].path + "/";
            && ("crates/domain/" <= from || "crates/application/" <= from ==> "crates/domain/" <= to)
            && ("crates/adapters/secondary/" <= from && "crates/adapters/secondary/" <= to ==>
                  "crates/adapters/secondary/shared/" <= chain[|chain| - 1].path)
            && (!("tests/" <= from) ==> !("apps/lablet/" <= to || "apps/lablet-cli/" <= to || "tests/" <= to))
  {
    hide Classify, OfMembers;
    var start, end := chain[0].path, chain[|chain| - 1].path;
    ChainsKeepTheArchitecture(ws, chain);
    RingsByDirectory(start, Domain);
    RingsByDirectory(start, Application);
    RingsByDirectory(start, SecondaryAdapter);
    RingsByDirectory(start, TestSupport);
    RingsByDirectory(end, Domain);
    RingsByDirectory(end, SecondaryAdapter);
    RingsByDirectory(end, LibraryRoot);
    RingsByDirectory(end, CliRoot);
    RingsByDirectory(end, TestSupport);
  }
}
