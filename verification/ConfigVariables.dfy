/** The variables a config names, and the environments a real-key run, its build and the checker are
    started with. */
module ConfigVariables {
  import opened Text
  import opened Json
  import opened References

  // ----- the variables a config names -----

  /** The keys under `prompt:` that are left as written. */
  const UNFILLED_PROMPTS := ["system", "system_file"]

  function NamesIn(text: string): set<string> {
    set r | r in Scan(text, 0) :: r.name
  }

  /** Every variable named in a text anywhere in `v`. */
  function Mentioned(v: Value): set<string> {
    match v
    case Str(text) => NamesIn(text)
    case Arr(items) => set i, n | 0 <= i < |items| && n in Mentioned(items[i]) :: n
    case Obj(entries) => set i, n | 0 <= i < |entries| && n in Mentioned(entries[i].1) :: n
    case _ => {}
  }

  method NamesOf(text: string) returns (names: set<string>)
    ensures names == NamesIn(text)
  {
    var found := ReferencesIn(text);
    names := set r | r in found :: r.name;
  }

  method Walk(v: Value, named: set<string>) returns (after: set<string>)
    ensures after == named + Mentioned(v)
    decreases v
  {
    after := named;
    match v {
      case Str(text) =>
        var names := NamesOf(text);
        after := after + names;
      case Arr(items) =>
        for i := 0 to |items|
          invariant forall n :: n in after <==> n in named || exists k | 0 <= k < i :: n in Mentioned(items[k])
        {
          after := Walk(items[i], after);
        }
      case Obj(entries) =>
        for i := 0 to |entries|
          invariant forall n :: n in after <==> n in named || exists k | 0 <= k < i :: n in Mentioned(entries[k].1)
        {
          after := Walk(entries[i].1, after);
        }
      case _ =>
    }
  }

  // ----- by path -----

  /** `text` is the text that stands in `v` at `path`. */
  ghost predicate Holds(v: Value, path: seq<Step>, text: string)
    decreases |path|
  {
    if path == [] then v == Str(text)
    else
      match path[0]
      case Index(i) => v.Arr? && i < |v.items| && Holds(v.items[i], path[1..], text)
      case Key(key) => v.Obj? && exists i | 0 <= i < |v.entries| ::
        v.entries[i].0 == key && Holds(v.entries[i].1, path[1..], text)
  }

  /** Every path is filled but those through `prompt.system` and `prompt.system_file` at the root. */
  ghost predicate Filled(path: seq<Step>) {
    !(|path| >= 2 && path[0] == Key("prompt") && path[1].Key? && (path[1].key == "system" || path[1].key == "system_file"))
  }

  lemma {:induction false} MentionedAtSomePath(v: Value, name: string) returns (path: seq<Step>, text: string)
    requires name in Mentioned(v)
    ensures Holds(v, path, text) && name in NamesIn(text)
    decreases v
  {
    match v {
      case Str(t) =>
        path, text := [], t;
      case Arr(items) =>
        var i :| 0 <= i < |items| && name in Mentioned(items[i]);
        path, text := MentionedAtSomePath(items[i], name);
        path := [Index(i)] + path;
      case Obj(entries) =>
        var i :| 0 <= i < |entries| && name in Mentioned(entries[i].1);
        path, text := MentionedAtSomePath(entries[i].1, name);
        path := [Key(entries[i].0)] + path;
    }
  }

  lemma {:induction false} HeldIsMentioned(v: Value, path: seq<Step>, text: string, name: string)
    requires Holds(v, path, text) && name in NamesIn(text)
    ensures name in Mentioned(v)
    decreases |path|
  {
    if path != [] {
      match path[0]
      case Index(i) =>
        HeldIsMentioned(v.items[i], path[1..], text, name);
      case Key(key) =>
        var i :| 0 <= i < |v.entries| && v.entries[i].0 == key && Holds(v.entries[i].1, path[1..], text);
        HeldIsMentioned(v.entries[i].1, path[1..], text, name);
    }
  }

  /** `name` is named by a text at some path that is filled. */
  ghost predicate NamedOnAPath(tree: Value, name: string) {
    exists path, text :: Filled(path) && Holds(tree, path, text) && name in NamesIn(text)
  }

  /** What one section at the root names: all of it but, in a `prompt` that is a table, the keys left as
      written. */
  ghost function FromSection(section: (string, Value)): set<string> {
    if section.0 == "prompt" && section.1.Obj?
    then set k, n | 0 <= k < |section.1.entries| && section.1.entries[k].0 !in UNFILLED_PROMPTS
                    && n in Mentioned(section.1.entries[k].1) :: n
    else Mentioned(section.1)
  }

  ghost predicate InASection(sections: seq<(string, Value)>, name: string) {
    exists s | 0 <= s < |sections| :: name in FromSection(sections[s])
  }

  method WalkPrompt(prompt: seq<(string, Value)>, named: set<string>) returns (after: set<string>)
    ensures after == named + FromSection(("prompt", Obj(prompt)))
  {
    hide Mentioned;
    after := named;
    for p := 0 to |prompt|
      invariant forall n :: n in after <==>
        n in named || exists k | 0 <= k < p :: prompt[k].0 !in UNFILLED_PROMPTS && n in Mentioned(prompt[k].1)
    {
      if prompt[p].0 !in UNFILLED_PROMPTS {
        after := Walk(prompt[p].1, after);
      }
    }
  }

  /** The names are exactly those of the texts at the filled paths, at any depth. */
  method NamedVariables(tree: Value) returns (named: set<string>)
    ensures forall name :: name in named <==> NamedOnAPath(tree, name)
  {
    hide Mentioned, NamedOnAPath, FromSection;
    named := {};
    if !tree.Obj? {
      named := Walk(tree, named);
      forall name ensures name in Mentioned(tree) <==> NamedOnAPath(tree, name) {
        OtherRootsAreFilled(tree, name);
      }
      return;
    }
    var sections := tree.entries;
    for s := 0 to |sections|
      invariant forall name :: name in named <==> InASection(sections[..s], name)
    {
      var (section, value) := sections[s];
      ghost var before := named;
      if section == "prompt" && value.Obj? {
        named := WalkPrompt(value.entries, named);
      } else {
        named := Walk(value, named);
        OtherSection(section, value);
      }
      assert sections[..s + 1] == sections[..s] + [(section, value)];
      forall name { OneSectionMore(sections[..s], (section, value), name); }
    }
    assert sections[..|sections|] == sections;
    forall name ensures InASection(sections, name) <==> NamedOnAPath(tree, name) {
      SectionsArePaths(tree, name);
    }
  }

  lemma OtherSection(section: string, value: Value)
    requires section != "prompt" || !value.Obj?
    ensures FromSection((section, value)) == Mentioned(value)
  {}

  lemma OneSectionMore(sections: seq<(string, Value)>, section: (string, Value), name: string)
    ensures InASection(sections + [section], name) <==> InASection(sections, name) || name in FromSection(section)
  {
    hide FromSection;
    var more := sections + [section];
    if InASection(sections, name) {
      var s :| 0 <= s < |sections| && name in FromSection(sections[s]);
      assert more[s] == sections[s];
    }
    assert more[|sections|] == section;
  }

  lemma OtherRootsAreFilled(tree: Value, name: string)
    requires !tree.Obj?
    ensures name in Mentioned(tree) <==> NamedOnAPath(tree, name)
  {
    if name in Mentioned(tree) {
      var path, text := MentionedAtSomePath(tree, name);
      assert Filled(path);
    }
    if NamedOnAPath(tree, name) {
      var path, text :| Filled(path) && Holds(tree, path, text) && name in NamesIn(text);
      HeldIsMentioned(tree, path, text, name);
    }
  }

  lemma SectionNameHasAPath(tree: Value, s: nat, name: string) returns (path: seq<Step>, text: string)
    requires tree.Obj? && s < |tree.entries| && name in FromSection(tree.entries[s])
    ensures Filled(path) && Holds(tree, path, text) && name in NamesIn(text)
  {
    var (section, value) := tree.entries[s];
    if section == "prompt" && value.Obj? {
      var k :| 0 <= k < |value.entries| && value.entries[k].0 !in UNFILLED_PROMPTS
               && name in Mentioned(value.entries[k].1);
      var inner: seq<Step>;
      inner, text := MentionedAtSomePath(value.entries[k].1, name);
      var below := [Key(value.entries[k].0)] + inner;
      assert below[1..] == inner && Holds(value, below, text);
      path := [Key(section)] + below;
      assert path[1..] == below;
    } else {
      var inner: seq<Step>;
      inner, text := MentionedAtSomePath(value, name);
      path := [Key(section)] + inner;
      assert path[1..] == inner;
      assert section == "prompt" ==> inner == [] || !inner[0].Key?;
    }
  }

  lemma FilledPathIsInASection(tree: Value, path: seq<Step>, text: string, name: string) returns (s: nat)
    requires tree.Obj? && Filled(path) && Holds(tree, path, text) && name in NamesIn(text)
    ensures s < |tree.entries| && name in FromSection(tree.entries[s])
  {
    s :| s < |tree.entries| && tree.entries[s].0 == path[0].key && Holds(tree.entries[s].1, path[1..], text);
    var value := tree.entries[s].1;
    if path[0].key == "prompt" && value.Obj? {
      var k :| 0 <= k < |value.entries| && value.entries[k].0 == path[1].key
               && Holds(value.entries[k].1, path[1..][1..], text);
      HeldIsMentioned(value.entries[k].1, path[1..][1..], text, name);
    } else {
      HeldIsMentioned(value, path[1..], text, name);
    }
  }

  lemma SectionsArePaths(tree: Value, name: string)
    requires tree.Obj?
    ensures InASection(tree.entries, name) <==> NamedOnAPath(tree, name)
  {
    hide FromSection, Holds;
    if InASection(tree.entries, name) {
      var s: nat :| s < |tree.entries| && name in FromSection(tree.entries[s]);
      var path, text := SectionNameHasAPath(tree, s, name);
    }
    if NamedOnAPath(tree, name) {
      var path, text :| Filled(path) && Holds(tree, path, text) && name in NamesIn(text);
      var s := FilledPathIsInASection(tree, path, text, name);
    }
  }

  // ----- what a process is handed -----

  type Environment = seq<(string, string)>

  // ----- the key's variable -----

  /** The variable a config's key is filled from, when the key is a variable and nothing besides. */
  function KeyVariable(tree: Value): Option<string> {
    match Get(tree, "model")
    case None => None
    case Some(model) =>
      match Get(model, "api_key")
      case Some(Str(text)) => KeyName(text)
      case _ => None
  }

  /** A config names its key's variable exactly when `model.api_key` is one whole reference to it. */
  lemma KeyVariableIsItsWholeText(tree: Value, name: string)
    ensures KeyVariable(tree) == Some(name) <==>
              exists model, default ::
                Get(tree, "model") == Some(model) && WellFormed(name, default)
                && Get(model, "api_key") == Some(Str(Written(name, default)))
  {
    hide KeyName, WellFormed, Written;
    match Get(tree, "model")
    case None =>
    case Some(model) =>
      match Get(model, "api_key")
      case Some(Str(text)) => KeyNameIsOneReference(text, name);
      case _ =>
  }

  const NETWORK := [
    "HTTP_PROXY", "HTTPS_PROXY", "ALL_PROXY", "NO_PROXY", "http_proxy", "https_proxy", "all_proxy", "no_proxy",
    "SSL_CERT_FILE", "SSL_CERT_DIR"]

  const HANDED_TO_WEAVER := ["PATH", "HOME", "TMPDIR", "LANG"]

  const HANDED_TO_A_BUILD := [
    "PATH", "HOME", "TMPDIR", "CARGO_HOME", "RUSTUP_HOME", "RUSTUP_TOOLCHAIN", "RUSTFLAGS", "RUSTC_WRAPPER",
    "CARGO_TARGET_DIR", "CARGO_BUILD_JOBS", "CARGO_INCREMENTAL", "CARGO_NET_OFFLINE", "LANG", "TERM"]

  const HANDED_TO_A_REAL_RUN := ["PATH", "HOME", "TMPDIR", "CARGO_HOME", "RUSTUP_HOME", "LANG", "RUST_LOG"]

  /** Where `name` is first mentioned. */
  ghost function FirstMention(names: seq<string>, name: string): nat
    requires name in names
  {
    if names[0] == name then 0 else 1 + FirstMention(names[1..], name)
  }

  /** `environment` holds the variables of `names` that the shell sets and no other, with its values, once
      each, by first mention. */
  ghost predicate IsSetIn(shell: map<string, string>, names: seq<string>, environment: Environment) {
    && (forall e | e in environment :: e.0 in shell && e.1 == shell[e.0] && e.0 in names)
    && (forall name | name in names && name in shell :: (name, shell[name]) in environment)
    && (forall i, j | 0 <= i < j < |environment| && environment[i].0 in names && environment[j].0 in names ::
          FirstMention(names, environment[i].0) < FirstMention(names, environment[j].0))
  }

  lemma {:induction false} FirstMentionWithin(names: seq<string>, more: seq<string>, name: string)
    requires name in names
    ensures name in names + more && FirstMention(names + more, name) == FirstMention(names, name) < |names|
  {
    if names[0] != name {
      assert (names + more)[1..] == names[1..] + more;
      FirstMentionWithin(names[1..], more, name);
    }
  }

  lemma {:induction false} FirstMentionAfter(names: seq<string>, name: string)
    requires name !in names
    ensures FirstMention(names + [name], name) == |names|
  {
    if names != [] {
      assert (names + [name])[1..] == names[1..] + [name];
      FirstMentionAfter(names[1..], name);
    }
  }

  method SetIn(shell: map<string, string>, names: seq<string>) returns (environment: Environment)
    ensures IsSetIn(shell, names, environment)
  {
    environment := [];
    var seen: set<string> := {};
    for i := 0 to |names|
      invariant seen == set n | n in names[..i]
      invariant IsSetIn(shell, names[..i], environment)
    {
      var name := names[i];
      ghost var before := names[..i];
      assert names[..i + 1] == before + [name];
      MentionOneMore(shell, before, name, environment);
      if name !in seen {
        seen := seen + {name};
        if name in shell {
          environment := environment + [(name, shell[name])];
        }
      }
    }
    assert names[..|names|] == names;
  }

  lemma MentionOneMore(shell: map<string, string>, names: seq<string>, name: string, environment: Environment)
    requires IsSetIn(shell, names, environment)
    ensures name in names || name !in shell ==> IsSetIn(shell, names + [name], environment)
    ensures name !in names && name in shell ==> IsSetIn(shell, names + [name], environment + [(name, shell[name])])
  {
    hide FirstMention;
    var more := names + [name];
    forall e | e in environment ensures e.0 in more && FirstMention(more, e.0) == FirstMention(names, e.0) < |names| {
      FirstMentionWithin(names, [name], e.0);
    }
    if name !in names {
      FirstMentionAfter(names, name);
    }
  }

  function Without(names: seq<string>, withheld: string): seq<string> {
    if names == [] then []
    else (if names[0] == withheld then [] else [names[0]]) + Without(names[1..], withheld)
  }

  lemma {:induction false} WithoutHolds(names: seq<string>, withheld: string, name: string)
    ensures name in Without(names, withheld) <==> name in names && name != withheld
  {
    if names != [] {
      WithoutHolds(names[1..], withheld, name);
    }
  }

  /** The names a process was handed. */
  ghost function NamesHanded(environment: Environment): set<string> {
    set e | e in environment :: e.0
  }

  ghost function AsSet(names: seq<string>): set<string> { set n | n in names }

  lemma HandedIsListed(shell: map<string, string>, names: seq<string>, environment: Environment)
    requires IsSetIn(shell, names, environment)
    ensures NamesHanded(environment) == AsSet(names) * shell.Keys
  {
    forall n | n in AsSet(names) * shell.Keys ensures n in NamesHanded(environment) {
      assert (n, shell[n]) in environment;
    }
  }

  // ----- the lists, name by name -----

  ghost predicate IsOfTheNetwork(name: string) {
    || name == "HTTP_PROXY" || name == "HTTPS_PROXY" || name == "ALL_PROXY" || name == "NO_PROXY"
    || name == "http_proxy" || name == "https_proxy" || name == "all_proxy" || name == "no_proxy"
    || name == "SSL_CERT_FILE" || name == "SSL_CERT_DIR"
  }

  ghost predicate IsForWeaver(name: string) {
    name == "PATH" || name == "HOME" || name == "TMPDIR" || name == "LANG" || IsOfTheNetwork(name)
  }

  ghost predicate IsForABuild(name: string) {
    || name == "PATH" || name == "HOME" || name == "TMPDIR" || name == "LANG" || name == "TERM"
    || name == "CARGO_HOME" || name == "RUSTUP_HOME" || name == "RUSTUP_TOOLCHAIN" || name == "RUSTFLAGS"
    || name == "RUSTC_WRAPPER" || name == "CARGO_TARGET_DIR" || name == "CARGO_BUILD_JOBS"
    || name == "CARGO_INCREMENTAL" || name == "CARGO_NET_OFFLINE"
    || IsOfTheNetwork(name)
  }

  ghost predicate IsForARealRun(name: string) {
    || name == "PATH" || name == "HOME" || name == "TMPDIR" || name == "LANG"
    || name == "CARGO_HOME" || name == "RUSTUP_HOME" || name == "RUST_LOG"
    || IsOfTheNetwork(name)
  }

  lemma InEither(a: seq<string>, b: seq<string>, name: string)
    ensures name in a + b <==> name in a || name in b
  {}

  lemma TheNetworkIs(name: string)
    ensures name in NETWORK <==> IsOfTheNetwork(name)
  {}

  lemma WeaverIsHanded(name: string)
    ensures name in AsSet(HANDED_TO_WEAVER + NETWORK) <==> IsForWeaver(name)
  {
    hide IsOfTheNetwork, NETWORK;
    InEither(HANDED_TO_WEAVER, NETWORK, name);
    TheNetworkIs(name);
  }

  lemma ABuildIsHanded(name: string)
    ensures name in AsSet(HANDED_TO_A_BUILD + NETWORK) <==> IsForABuild(name)
  {
    hide IsOfTheNetwork, NETWORK;
    InEither(HANDED_TO_A_BUILD, NETWORK, name);
    TheNetworkIs(name);
  }

  lemma ARealRunIsHanded(name: string)
    ensures name in AsSet(HANDED_TO_A_REAL_RUN + NETWORK) <==> IsForARealRun(name)
  {
    hide IsOfTheNetwork, NETWORK;
    InEither(HANDED_TO_A_REAL_RUN, NETWORK, name);
    TheNetworkIs(name);
  }

  /** The checker's environment never holds the key, whatever its variable is called. */
  method HandedToWeaver(shell: map<string, string>, withheld: Option<string>) returns (environment: Environment)
    ensures forall n :: n in NamesHanded(environment) <==> n in shell && IsForWeaver(n) && withheld != Some(n)
    ensures withheld.Some? ==> withheld.value !in NamesHanded(environment)
    ensures IsSetIn(shell, if withheld.Some? then Without(HANDED_TO_WEAVER + NETWORK, withheld.value)
                           else HANDED_TO_WEAVER + NETWORK, environment)
  {
    hide NETWORK, HANDED_TO_WEAVER, IsForWeaver, IsSetIn;
    forall name { WeaverIsHanded(name); }
    var listed := HANDED_TO_WEAVER + NETWORK;
    if withheld.Some? {
      forall name { WithoutHolds(listed, withheld.value, name); }
      listed := Without(listed, withheld.value);
    }
    environment := SetIn(shell, listed);
    HandedIsListed(shell, listed, environment);
  }

  /** The build's environment never holds the key. */
  method HandedToABuild(variable: string, shell: map<string, string>) returns (environment: Environment)
    ensures forall n :: n in NamesHanded(environment) <==> n in shell && IsForABuild(n) && n != variable
    ensures variable !in NamesHanded(environment)
    ensures IsSetIn(shell, Without(HANDED_TO_A_BUILD + NETWORK, variable), environment)
  {
    hide NETWORK, HANDED_TO_A_BUILD, IsForABuild, IsSetIn;
    forall name { ABuildIsHanded(name); }
    var listed := HANDED_TO_A_BUILD + NETWORK;
    forall name { WithoutHolds(listed, variable, name); }
    listed := Without(listed, variable);
    environment := SetIn(shell, listed);
    HandedIsListed(shell, listed, environment);
  }

  /** The real run's environment: the allowlist, what the config names and the key, as far as they're set,
      each once, in the order they're first mentioned. `named` is the config's variables as iterated. */
  method HandedToARealRun(variable: string, named: seq<string>, shell: map<string, string>)
    returns (environment: Environment)
    ensures IsSetIn(shell, HANDED_TO_A_REAL_RUN + NETWORK + named + [variable], environment)
    ensures forall n :: n in NamesHanded(environment) <==>
                          n in shell && (IsForARealRun(n) || n in named || n == variable)
  {
    hide NETWORK, HANDED_TO_A_REAL_RUN, IsForARealRun, IsSetIn;
    forall name { ARealRunIsHanded(name); }
    var listed := HANDED_TO_A_REAL_RUN + NETWORK + named + [variable];
    environment := SetIn(shell, listed);
    HandedIsListed(shell, listed, environment);
  }
}
