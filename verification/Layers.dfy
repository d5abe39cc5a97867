/** The layer lint: rings by path, single dependencies judged one by one, and what that comes to over whole
    chains of them. */
module Layers {
  import opened Text
  import opened Json

  datatype Ring = Domain | Application | SecondaryAdapter | RootKernel | LibraryRoot | CliRoot | TestSupport {

    /** Its own shared kernels aside. */
    function MayDependOn(): seq<Ring> {
      match this
      case Domain | Application => [Domain]
      case SecondaryAdapter => [Application, Domain]
      case RootKernel | LibraryRoot | CliRoot => [Domain, Application, SecondaryAdapter, RootKernel]
      case TestSupport => [Domain, Application, SecondaryAdapter, RootKernel, LibraryRoot, CliRoot, TestSupport]
    }

    /** The external families a ring may not use. */
    function ForbiddenFamilies(): seq<Family> {
      match this
      case Domain =>
        [Family("tokio", Forbidden), Family("reqwest", Forbidden), Family("tracing", Forbidden),
         Family("opentelemetry", Forbidden), Family("rmcp", Forbidden), Family("tonic", Forbidden),
         Family("axum", Forbidden), Family("hyper", Forbidden)]
      case Application =>
        [Family("tokio", Forbidden), Family("reqwest", Forbidden), Family("rmcp", Forbidden),
         Family("tonic", Forbidden), Family("axum", Forbidden), Family("hyper", Forbidden),
         Family("opentelemetry", Allowed)]
      case SecondaryAdapter | RootKernel | LibraryRoot => [Family("opentelemetry", Allowed)]
      case CliRoot | TestSupport => []
    }
  }

  /** How a crate is judged that bears the bare name of a family. */
  datatype Namesake = Forbidden | Allowed

  datatype Family = Family(name: string, namesake: Namesake)

  const RINGS := [
    ("crates/domain/", Domain),
    ("crates/application/", Application),
    ("crates/adapters/secondary/", SecondaryAdapter),
    ("apps/shared/", RootKernel),
    ("apps/lablet/", LibraryRoot),
    ("apps/lablet-cli/", CliRoot),
    ("tests/", TestSupport)]

  function ClassifyFrom(directory: string, i: nat): (r: Option<Ring>)
    requires i <= |RINGS|
    ensures r.Some? <==> exists k | i <= k < |RINGS| :: RINGS[k].0 <= directory
    ensures r.Some? ==> exists k | i <= k < |RINGS| :: RINGS[k].0 <= directory && r.value == RINGS[k].1
    decreases |RINGS| - i
  {
    if i == |RINGS| then None
    else if RINGS[i].0 <= directory then Some(RINGS[i].1)
    else ClassifyFrom(directory, i + 1)
  }

  /** The ring a member's path belongs to. */
  function Classify(path: string): Option<Ring> { ClassifyFrom(path + "/", 0) }

  /** No path is in two rings, so the order of the table decides nothing. */
  lemma RingIsUnique(path: string, i: nat, j: nat)
    requires i < |RINGS| && j < |RINGS| && RINGS[i].0 <= path + "/" && RINGS[j].0 <= path + "/"
    ensures i == j && Classify(path) == Some(RINGS[i].1)
  {
    RingsDiffer(path + "/", i, j);
    var k :| 0 <= k < |RINGS| && RINGS[k].0 <= path + "/" && Classify(path).value == RINGS[k].1;
    RingsDiffer(path + "/", i, k);
  }

  lemma RingsDiffer(d: string, i: nat, j: nat)
    requires i < |RINGS| && j < |RINGS| && RINGS[i].0 <= d && RINGS[j].0 <= d
    ensures i == j
  {
    // The places at which one prefix differs from another.
    assert forall k: nat | k < |RINGS| && RINGS[k].0 <= d :: d[0] == RINGS[k].0[0] && d[5] == RINGS[k].0[5];
    assert forall k: nat | k < |RINGS| && RINGS[k].0 <= d && |RINGS[k].0| >= 9 ::
      d[7] == RINGS[k].0[7] && d[8] == RINGS[k].0[8];
    assert forall k: nat | k < |RINGS| && RINGS[k].0 <= d && |RINGS[k].0| >= 12 :: d[11] == RINGS[k].0[11];
  }

  predicate IsKernel(path: string) { "crates/adapters/secondary/shared/" <= path }

  /** Inward only, but that an adapter may use a kernel beside it. */
  predicate EdgePermitted(from: Ring, to: Ring, toIsKernel: bool) {
    to in from.MayDependOn() || (from.SecondaryAdapter? && to == from && toIsKernel)
  }

  /** `-` folded to `_`. */
  function Normalised(name: string): string {
    seq(|name|, i requires 0 <= i < |name| => if name[i] == '-' then '_' else name[i])
  }

  predicate IsUnderscore(c: char) { c == '_' }

  /** A family hits the crates with its name between underscores, save a namesake that's let through. */
  predicate Hits(family: Family, normalised: string) {
    family.name in SplitWhere(normalised, IsUnderscore) && !(family.namesake.Allowed? && normalised == family.name)
  }

  function FirstHit(families: seq<Family>, normalised: string): (r: Option<string>)
    ensures r.Some? <==> exists family | family in families :: Hits(family, normalised)
    ensures r.Some? ==> exists family | family in families :: Hits(family, normalised) && family.name == r.value
  {
    if families == [] then None
    else if Hits(families[0], normalised) then Some(families[0].name)
    else FirstHit(families[1..], normalised)
  }

  function ForbiddenFamily(ring: Ring, name: string): Option<string> {
    FirstHit(ring.ForbiddenFamilies(), Normalised(name))
  }

  // ----- a workspace -----

  datatype Section = Section(header: string, dev: bool, entries: seq<(string, Value)>)

  datatype Member = Member(path: string, name: string, sections: seq<Section>)

  /** The `[workspace.dependencies]` table and the members, in the order listed. */
  datatype Workspace = Workspace(dependencies: map<string, Value>, members: seq<Member>) {

    function MemberAt(path: string): (r: Option<Member>)
      ensures r.Some? ==> r.value in members && r.value.path == path
    {
      AtPath(members, path)
    }

    predicate IsMembersName(name: string) {
      exists m | m in members :: Normalised(m.name) == Normalised(name)
    }
  }

  function AtPath(members: seq<Member>, path: string): (r: Option<Member>)
    ensures r.Some? ==> r.value in members && r.value.path == path
  {
    if members == [] then None
    else if members[0].path == path then Some(members[0])
    else AtPath(members[1..], path)
  }

  datatype Dependency = Internal(member: Member) | External(name: string) | Gap(why: Why)

  datatype Why = NotInherited | NoEntry | PathIsNoMember | SharesAMembersName

  /** Whether a dependency's entry refers to the workspace's own table. */
  predicate InheritsWorkspace(spec: Value) { Get(spec, "workspace") == Some(Bool(true)) }

  /** What a dependency's key stands for; a reference that leads nowhere leaves nothing to judge. */
  function Resolve(ws: Workspace, key: string, spec: Value): (d: Dependency)
    ensures d.Internal? ==> d.member in ws.members
  {
    if !InheritsWorkspace(spec) then Gap(NotInherited)
    else if key !in ws.dependencies then Gap(NoEntry)
    else
      var entry := ws.dependencies[key];
      var name := match Get(entry, "package") case Some(Str(package)) => package case _ => key;
      match Get(entry, "path")
      case Some(path) =>
        if path.Str? && ws.MemberAt(path.text).Some? then Internal(ws.MemberAt(path.text).value) else Gap(PathIsNoMember)
      case None =>
        if ws.IsMembersName(name) then Gap(SharesAMembersName) else External(name)
  }

  // ----- the lint -----

  datatype Finding =
    | InNoRing(member: Member)
    | CannotJudge(member: Member, header: string, key: string, why: Why)
    | WrongEdge(member: Member, header: string, target: Member)
    | WrongFamily(member: Member, header: string, name: string, family: string)

  /** What one entry of a member in `ring` comes to. */
  function Judged(ws: Workspace, member: Member, ring: Ring, section: Section, key: string, spec: Value): seq<Finding> {
    match Resolve(ws, key, spec)
    case Gap(why) => [CannotJudge(member, section.header, key, why)]
    case Internal(target) =>
      if section.dev then []
      else
        (match Classify(target.path)
         // The target is a finding of its own.
         case None => []
         case Some(to) =>
           if EdgePermitted(ring, to, IsKernel(target.path)) then [] else [WrongEdge(member, section.header, target)])
    case External(name) =>
      if section.dev then []
      else
        match ForbiddenFamily(ring, name)
        case None => []
        case Some(family) => [WrongFamily(member, section.header, name, family)]
  }

  function OfEntries(
      ws: Workspace, member: Member, ring: Ring, section: Section, entries: seq<(string, Value)>): seq<Finding> {
    if entries == [] then []
    else
      var last := |entries| - 1;
      OfEntries(ws, member, ring, section, entries[..last])
      + Judged(ws, member, ring, section, entries[last].0, entries[last].1)
  }

  function OfSections(ws: Workspace, member: Member, ring: Ring, sections: seq<Section>): seq<Finding> {
    if sections == [] then []
    else
      var last := |sections| - 1;
      OfSections(ws, member, ring, sections[..last]) + OfEntries(ws, member, ring, sections[last], sections[last].entries)
  }

  function OfMember(ws: Workspace, member: Member): seq<Finding> {
    match Classify(member.path)
    case None => [InNoRing(member)]
    case Some(ring) => OfSections(ws, member, ring, member.sections)
  }

  function OfMembers(ws: Workspace, members: seq<Member>): seq<Finding> {
    if members == [] then []
    else OfMembers(ws, members[..|members| - 1]) + OfMember(ws, members[|members| - 1])
  }

  method LintEntries(ws: Workspace, member: Member, ring: Ring, section: Section) returns (findings: seq<Finding>)
    ensures findings == OfEntries(ws, member, ring, section, section.entries)
  {
    hide Judged;
    findings := [];
    var entries := section.entries;
    for e := 0 to |entries|
      invariant findings == OfEntries(ws, member, ring, section, entries[..e])
    {
      assert entries[..e + 1][..e] == entries[..e];
      findings := findings + Judged(ws, member, ring, section, entries[e].0, entries[e].1);
    }
    assert entries[..|entries|] == entries;
  }

  method LintMember(ws: Workspace, member: Member) returns (findings: seq<Finding>)
    ensures findings == OfMember(ws, member)
  {
    hide OfEntries, Classify;
    var ring := Classify(member.path);
    if ring.None? {
      return [InNoRing(member)];
    }
    findings := [];
    var sections := member.sections;
    for s := 0 to |sections|
      invariant findings == OfSections(ws, member, ring.value, sections[..s])
    {
      assert sections[..s + 1][..s] == sections[..s];
      var found := LintEntries(ws, member, ring.value, sections[s]);
      findings := findings + found;
    }
    assert sections[..|sections|] == sections;
  }

  method Lint(ws: Workspace) returns (findings: seq<Finding>)
    ensures findings == OfMembers(ws, ws.members)
    ensures findings == [] <==> Clean(ws)
  {
    hide OfMember, Clean;
    findings := [];
    for m := 0 to |ws.members|
      invariant findings == OfMembers(ws, ws.members[..m])
    {
      assert ws.members[..m + 1][..m] == ws.members[..m];
      var found := LintMember(ws, ws.members[m]);
      findings := findings + found;
    }
    assert ws.members[..|ws.members|] == ws.members;
    NoFindingsIsClean(ws);
  }

  // ----- what no findings means -----

  /** An entry breaks no rule. */
  predicate EntryClean(ws: Workspace, ring: Ring, section: Section, entry: (string, Value)) {
    match Resolve(ws, entry.0, entry.1)
    case Gap(_) => false
    case Internal(target) =>
      var to := Classify(target.path);
      section.dev || (to.Some? ==> EdgePermitted(ring, to.value, IsKernel(target.path)))
    case External(name) => section.dev || ForbiddenFamily(ring, name).None?
  }

  predicate MemberClean(ws: Workspace, member: Member) {
    && Classify(member.path).Some?
    && forall section, entry | section in member.sections && entry in section.entries ::
         EntryClean(ws, Classify(member.path).value, section, entry)
  }

  predicate Clean(ws: Workspace) { forall member | member in ws.members :: MemberClean(ws, member) }

  lemma {:induction false} NoneOfEntries(
      ws: Workspace, member: Member, ring: Ring, section: Section, entries: seq<(string, Value)>)
    ensures OfEntries(ws, member, ring, section, entries) == []
       <==> forall entry | entry in entries :: EntryClean(ws, ring, section, entry)
  {
    hide EntryClean, Judged;
    if entries != [] {
      var last := |entries| - 1;
      NoneOfEntries(ws, member, ring, section, entries[..last]);
      EntryFound(ws, member, ring, section, entries[last]);
      assert forall e :: e in entries <==> e in entries[..last] || e == entries[last];
    }
  }

  lemma EntryFound(ws: Workspace, member: Member, ring: Ring, section: Section, entry: (string, Value))
    ensures Judged(ws, member, ring, section, entry.0, entry.1) == [] <==> EntryClean(ws, ring, section, entry)
  {
    hide Resolve, Classify, ForbiddenFamily, EdgePermitted, IsKernel;
  }

  lemma {:induction false} NoneOfSections(ws: Workspace, member: Member, ring: Ring, sections: seq<Section>)
    ensures OfSections(ws, member, ring, sections) == []
       <==> forall section, entry | section in sections && entry in section.entries ::
              EntryClean(ws, ring, section, entry)
  {
    hide EntryClean, OfEntries;
    if sections != [] {
      var last := |sections| - 1;
      NoneOfSections(ws, member, ring, sections[..last]);
      NoneOfEntries(ws, member, ring, sections[last], sections[last].entries);
      assert forall s :: s in sections <==> s in sections[..last] || s == sections[last];
    }
  }

  lemma {:induction false} NoneOfMembers(ws: Workspace, members: seq<Member>)
    ensures OfMembers(ws, members) == [] <==> forall member | member in members :: MemberClean(ws, member)
  {
    hide MemberClean, OfMember;
    if members != [] {
      var last := |members| - 1;
      NoneOfMembers(ws, members[..last]);
      NoneOfMember(ws, members[last]);
      assert forall m :: m in members <==> m in members[..last] || m == members[last];
    }
  }

  lemma NoneOfMember(ws: Workspace, member: Member)
    ensures OfMember(ws, member) == [] <==> MemberClean(ws, member)
  {
    hide EntryClean, Classify;
    match Classify(member.path)
    case None =>
    case Some(ring) => NoneOfSections(ws, member, ring, member.sections);
  }

  /** The lint finds nothing exactly when every member is in a ring and no entry breaks a rule. */
  lemma NoFindingsIsClean(ws: Workspace)
    ensures OfMembers(ws, ws.members) == [] <==> Clean(ws)
  {
    NoneOfMembers(ws, ws.members);
  }

  // ----- over chains of dependencies -----

  /** `a` depends on `b`, dev dependencies aside. */
  ghost predicate DependsOn(ws: Workspace, a: Member, b: Member) {
    exists section, entry | section in a.sections && entry in section.entries ::
      !section.dev && Resolve(ws, entry.0, entry.1) == Internal(b)
  }

  /** `a` depends on the registry crate `name`, dev dependencies aside. */
  ghost predicate Uses(ws: Workspace, a: Member, name: string) {
    exists section, entry | section in a.sections && entry in section.entries ::
      !section.dev && Resolve(ws, entry.0, entry.1) == External(name)
  }

  ghost predicate Chain(ws: Workspace, chain: seq<Member>) {
    && |chain| >= 2
    && chain[0] in ws.members
    && forall i | 0 <= i < |chain| - 1 :: DependsOn(ws, chain[i], chain[i + 1])
  }

  lemma EdgeIsPermitted(ws: Workspace, a: Member, b: Member)
    requires Clean(ws) && a in ws.members && DependsOn(ws, a, b)
    ensures b in ws.members && Classify(a.path).Some? && Classify(b.path).Some?
    ensures EdgePermitted(Classify(a.path).value, Classify(b.path).value, IsKernel(b.path))
  {
    hide Classify, EdgePermitted, IsKernel, Resolve;
    var section, entry :| section in a.sections && entry in section.entries && !section.dev
                          && Resolve(ws, entry.0, entry.1) == Internal(b);
    assert MemberClean(ws, a) && EntryClean(ws, Classify(a.path).value, section, entry);
    assert MemberClean(ws, b);
  }

  /** The rule for one edge holds of two in a row: it's closed under taking chains. */
  lemma EdgesCompose(a: Ring, b: Ring, bIsKernel: bool, c: Ring, cIsKernel: bool)
    requires EdgePermitted(a, b, bIsKernel) && EdgePermitted(b, c, cIsKernel)
    ensures EdgePermitted(a, c, cIsKernel)
  {}

  /** In a workspace without findings every chain of dependencies ends where an edge from its start could. */
  lemma {:induction false} ChainIsPermitted(ws: Workspace, chain: seq<Member>)
    requires Clean(ws) && Chain(ws, chain)
    ensures var end := chain[|chain| - 1];
            && end in ws.members && Classify(chain[0].path).Some? && Classify(end.path).Some?
            && EdgePermitted(Classify(chain[0].path).value, Classify(end.path).value, IsKernel(end.path))
    decreases |chain|
  {
    hide Clean, DependsOn, Classify, EdgePermitted, IsKernel;
    var last := |chain| - 1;
    if last == 1 {
      EdgeIsPermitted(ws, chain[0], chain[1]);
    } else {
      ChainIsPermitted(ws, chain[..last]);
      assert DependsOn(ws, chain[last - 1], chain[last - 1 + 1]);
      EdgeIsPermitted(ws, chain[last - 1], chain[last]);
      EdgesCompose(
        Classify(chain[0].path).value, Classify(chain[last - 1].path).value, IsKernel(chain[last - 1].path),
        Classify(chain[last].path).value, IsKernel(chain[last].path));
    }
  }

  /** What a workspace without findings guarantees of whatever a crate reaches, however far. */
  lemma ChainsKeepTheArchitecture(ws: Workspace, chain: seq<Member>)
    requires OfMembers(ws, ws.members) == [] && Chain(ws, chain)
    ensures Classify(chain[0].path).Some? && Classify(chain[|chain| - 1].path).Some?
    ensures var from, to := Classify(chain[0].path).value, Classify(chain[|chain| - 1].path).value;
            && (from.Domain? ==> to.Domain?)
            && (from.Application? ==> to.Domain?)
            && (from.SecondaryAdapter? && to.SecondaryAdapter? ==> IsKernel(chain[|chain| - 1].path))
            && (from.SecondaryAdapter? ==> to in {Domain, Application, SecondaryAdapter})
            && (!from.TestSupport? ==> to !in {LibraryRoot, CliRoot, TestSupport})
  {
    hide Classify, IsKernel, Clean, OfMembers, Chain;
    NoFindingsIsClean(ws);
    ChainIsPermitted(ws, chain);
  }

  lemma ForbiddenByAFamily(ring: Ring, name: string)
    ensures ForbiddenFamily(ring, name).Some?
       <==> exists family | family in ring.ForbiddenFamilies() :: Hits(family, Normalised(name))
    ensures ForbiddenFamily(ring, name).Some? ==>
              exists family | family in ring.ForbiddenFamilies() ::
                Hits(family, Normalised(name)) && family.name == ForbiddenFamily(ring, name).value
  {
    hide Hits, Normalised;
  }

  lemma HitsIfNotAllowed(family: Family, normalised: string)
    requires Hits(family, normalised)
    ensures Hits(Family(family.name, Forbidden), normalised)
  {}

  /** The domain forbids each family that any ring does, and its own crate with it. */
  lemma TheDomainForbidsAll(ring: Ring, family: Family)
    requires family in ring.ForbiddenFamilies()
    ensures Family(family.name, Forbidden) in Domain.ForbiddenFamilies()
  {
    var strict, atDomain := Family(family.name, Forbidden), Domain.ForbiddenFamilies();
    match ring
    case Domain =>
    case Application =>
      assert atDomain[0].name == "tokio" && atDomain[1].name == "reqwest" && atDomain[3].name == "opentelemetry"
             && atDomain[4].name == "rmcp" && atDomain[5].name == "tonic" && atDomain[6].name == "axum"
             && atDomain[7].name == "hyper";
    case SecondaryAdapter | RootKernel | LibraryRoot =>
      assert atDomain[3].name == "opentelemetry";
    case CliRoot | TestSupport =>
  }

  /** What an adapter or a root may not use, the application may not either. */
  lemma TheApplicationForbidsIt(ring: Ring, family: Family)
    requires ring !in {Domain, Application} && family in ring.ForbiddenFamilies()
    ensures family in Application.ForbiddenFamilies()
  {
    assert Application.ForbiddenFamilies()[6] == Family("opentelemetry", Allowed);
  }

  /** Whatever a ring may not use, nothing it may depend on may use either. */
  lemma ForbiddenStaysForbidden(from: Ring, to: Ring, toIsKernel: bool, name: string)
    requires EdgePermitted(from, to, toIsKernel) && ForbiddenFamily(from, name).Some?
    ensures ForbiddenFamily(to, name).Some?
  {
    ForbiddenByAFamily(from, name);
    ForbiddenByAFamily(to, name);
    hide Hits, Normalised, ForbiddenFamily;
    var family :| family in from.ForbiddenFamilies() && Hits(family, Normalised(name));
    if to.Domain? {
      TheDomainForbidsAll(from, family);
      HitsIfNotAllowed(family, Normalised(name));
    } else if to.Application? {
      TheApplicationForbidsIt(from, family);
    } else {
      assert from.ForbiddenFamilies() == to.ForbiddenFamilies() || from.ForbiddenFamilies() == [];
    }
  }

  /** A crate whose name goes on after a family's is of that family, and not its namesake. */
  lemma MembersAreHit(family: Family, rest: string)
    requires (forall c | c in family.name :: c != '-' && c != '_') && (forall c | c in rest :: c != '-' && c != '_')
    ensures Hits(family, Normalised(family.name + "_" + rest))
  {
    var name := family.name + "_" + rest;
    SplitWhereConcat(family.name, '_', rest, IsUnderscore);
    SplitWhereWhole(family.name, IsUnderscore);
    forall i | 0 <= i < |name| ensures name[i] != '-' {
      assert i < |family.name| ==> name[i] in family.name;
      assert i > |family.name| ==> name[i] in rest;
    }
    assert Normalised(name) == name && |name| > |family.name|;
    assert SplitWhere(name, IsUnderscore)[0] == family.name;
  }

  lemma ForbidsSomeOfTheFamily(ring: Ring) returns (family: Family)
    requires ring !in {CliRoot, TestSupport}
    ensures family in ring.ForbiddenFamilies() && family.name == "opentelemetry"
  {
    family := ring.ForbiddenFamilies()[match ring case Domain => 3 case Application => 6 case _ => 0];
  }

  lemma TheSdkIsHit(family: Family)
    requires family.name == "opentelemetry"
    ensures Hits(family, Normalised("opentelemetry_sdk"))
  {
    hide Hits, Normalised;
    MembersAreHit(family, "sdk");
    assert family.name + "_" + "sdk" == "opentelemetry_sdk";
  }

  /** The OpenTelemetry SDK is forbidden to every ring but the CLI's root and test support, to which nothing is. */
  lemma TheSdkIsForbidden(ring: Ring)
    ensures ForbiddenFamily(ring, "opentelemetry_sdk").Some? <==> ring !in {CliRoot, TestSupport}
  {
    hide Hits, Normalised, FirstHit, ForbiddenFamily;
    ForbiddenByAFamily(ring, "opentelemetry_sdk");
    if ring !in {CliRoot, TestSupport} {
      hide Ring.ForbiddenFamilies;
      var family := ForbidsSomeOfTheFamily(ring);
      TheSdkIsHit(family);
    }
  }

  /** So it's a dependency of nothing that any other crate reaches, the library root's among them. */
  lemma TheSdkIsOutOfReach(ws: Workspace, chain: seq<Member>)
    requires OfMembers(ws, ws.members) == [] && chain != [] && chain[0] in ws.members
    requires |chain| >= 2 ==> Chain(ws, chain)
    requires Classify(chain[0].path).Some? && Classify(chain[0].path).value !in {CliRoot, TestSupport}
    ensures !Uses(ws, chain[|chain| - 1], "opentelemetry_sdk")
  {
    hide Classify, ForbiddenFamily, Uses, OfMembers, Chain;
    TheSdkIsForbidden(Classify(chain[0].path).value);
    ForbiddenIsOutOfReach(ws, chain, "opentelemetry_sdk");
  }

  /** A crate name that a ring forbids is a dependency of nothing reachable from a crate of that ring, or of
      that crate. */
  lemma ForbiddenIsOutOfReach(ws: Workspace, chain: seq<Member>, name: string)
    requires OfMembers(ws, ws.members) == [] && chain != [] && chain[0] in ws.members
    requires |chain| >= 2 ==> Chain(ws, chain)
    requires Classify(chain[0].path).Some? && ForbiddenFamily(Classify(chain[0].path).value, name).Some?
    ensures !Uses(ws, chain[|chain| - 1], name)
  {
    hide Classify, ForbiddenFamily, EdgePermitted, IsKernel, Uses, Clean, OfMembers;
    NoFindingsIsClean(ws);
    var end := chain[|chain| - 1];
    if |chain| >= 2 {
      ChainIsPermitted(ws, chain);
      ForbiddenStaysForbidden(Classify(chain[0].path).value, Classify(end.path).value, IsKernel(end.path), name);
    }
    UsesNothingForbidden(ws, end, name);
  }

  lemma UsesNothingForbidden(ws: Workspace, member: Member, name: string)
    requires Clean(ws) && member in ws.members && Classify(member.path).Some?
    requires ForbiddenFamily(Classify(member.path).value, name).Some?
    ensures !Uses(ws, member, name)
  {
    hide Classify, ForbiddenFamily, Resolve;
    assert MemberClean(ws, member);
    forall section, entry | section in member.sections && entry in section.entries && !section.dev
      ensures Resolve(ws, entry.0, entry.1) != External(name)
    {
      assert EntryClean(ws, Classify(member.path).value, section, entry);
    }
  }
}
