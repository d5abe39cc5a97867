/** When two whole requests have the same skeleton. */
module SkeletonRequests {
  import opened Text
  import opened Json
  import opened Skeleton
  import opened SkeletonEdits
  import opened SkeletonParameters
  import opened SkeletonShows

  // ----- what's carried over -----

  predicate HasKey(entries: seq<(string, Value)>, key: string) {
    exists i | 0 <= i < |entries| :: entries[i].0 == key
  }

  /** The entries that were there, with the value of a key that's carried over one of them. */
  function Overridden(v: Value, keys: seq<string>, except: seq<string>, start: seq<(string, Value)>): seq<(string, Value)> {
    seq(|start|, i requires 0 <= i < |start| =>
      if start[i].0 in keys && start[i].0 !in except then (start[i].0, GetOr(v, start[i].0, Null)) else start[i])
  }

  /** The entries that are new, each once. */
  function Added(v: Value, keys: seq<string>, except: seq<string>, start: seq<(string, Value)>): seq<(string, Value)> {
    if keys == [] then []
    else
      var init, key := keys[..|keys| - 1], keys[|keys| - 1];
      var before := Added(v, init, except, start);
      if key in except || HasKey(start, key) || key in init then before else before + [(key, GetOr(v, key, Null))]
  }

  lemma {:induction false} AddedHolds(v: Value, keys: seq<string>, except: seq<string>, start: seq<(string, Value)>)
    ensures forall e | e in Added(v, keys, except, start) ::
              e.0 in keys && e.0 !in except && !HasKey(start, e.0) && e.1 == GetOr(v, e.0, Null)
    ensures forall key | key in keys && key !in except && !HasKey(start, key) ::
              HasKey(Added(v, keys, except, start), key)
  {
    hide HasKey, GetOr;
    if keys != [] {
      var init, key := keys[..|keys| - 1], keys[|keys| - 1];
      var before := Added(v, init, except, start);
      AddedHolds(v, init, except, start);
      assert keys == init + [key];
      HasLast(before, (key, GetOr(v, key, Null)));
    }
  }

  lemma HasLast(before: seq<(string, Value)>, e: (string, Value))
    ensures HasKey(before + [e], e.0)
    ensures forall key | HasKey(before, key) :: HasKey(before + [e], key)
  {
    assert (before + [e])[|before|] == e;
    forall key | HasKey(before, key) ensures HasKey(before + [e], key) {
      var i :| 0 <= i < |before| && before[i].0 == key;
      assert (before + [e])[i] == before[i];
    }
  }

  lemma SetIs(entries: seq<(string, Value)>, key: string, value: Value)
    ensures !HasKey(entries, key) ==> Set(entries, key, value) == entries + [(key, value)]
    ensures HasKey(entries, key) ==>
              |Set(entries, key, value)| == |entries|
              && forall i | 0 <= i < |entries| ::
                   Set(entries, key, value)[i] == if entries[i].0 == key then (key, value) else entries[i]
  {
    if i :| 0 <= i < |entries| && entries[i].0 == key {
      assert entries[i] in entries;
    }
  }

  /** What's carried over is the entries that were there, overridden, and the new ones. */
  lemma {:induction false} CarriedIs(v: Value, keys: seq<string>, except: seq<string>, start: seq<(string, Value)>)
    ensures Carried(v, keys, except, start) == Overridden(v, keys, except, start) + Added(v, keys, except, start)
  {
    hide Set, GetOr, HasKey;
    if keys == [] {
      assert Overridden(v, keys, except, start) == start;
    } else {
      var init, key := keys[..|keys| - 1], keys[|keys| - 1];
      CarriedIs(v, init, except, start);
      assert keys == init + [key];
      if key in except {
        assert Overridden(v, keys, except, start) == Overridden(v, init, except, start);
      } else if HasKey(start, key) {
        OverridesOne(v, init, key, except, start);
      } else {
        AddsOne(v, init, key, except, start);
      }
    }
  }

  lemma OverridesOne(v: Value, init: seq<string>, key: string, except: seq<string>, start: seq<(string, Value)>)
    requires key !in except && HasKey(start, key)
    ensures Set(Overridden(v, init, except, start) + Added(v, init, except, start), key, GetOr(v, key, Null))
         == Overridden(v, init + [key], except, start) + Added(v, init, except, start)
  {
    hide Set, GetOr;
    var before, after, added := Overridden(v, init, except, start), Overridden(v, init + [key], except, start),
                                Added(v, init, except, start);
    AddedHolds(v, init, except, start);
    var k :| 0 <= k < |start| && start[k].0 == key;
    var both := before + added;
    assert both[k].0 == key;
    SetIs(both, key, GetOr(v, key, Null));
    forall i | 0 <= i < |added| ensures added[i].0 != key {
      assert added[i] in added;
    }
  }

  lemma AddsOne(v: Value, init: seq<string>, key: string, except: seq<string>, start: seq<(string, Value)>)
    requires key !in except && !HasKey(start, key)
    ensures Set(Overridden(v, init, except, start) + Added(v, init, except, start), key, GetOr(v, key, Null))
         == Overridden(v, init + [key], except, start) + Added(v, init + [key], except, start)
  {
    hide Set, GetOr;
    var before, added := Overridden(v, init, except, start), Added(v, init, except, start);
    var both, value := before + added, GetOr(v, key, Null);
    AddedHolds(v, init, except, start);
    assert (init + [key])[..|init|] == init;
    assert Overridden(v, init + [key], except, start) == before;
    SetIs(both, key, value);
    if key in init {
      var k :| 0 <= k < |added| && added[k].0 == key;
      assert both[|before| + k].0 == key;
      forall i | 0 <= i < |both| && both[i].0 == key ensures both[i] == (key, value) {
        assert i >= |before| ==> both[i] in added;
      }
    } else {
      forall i | 0 <= i < |both| ensures both[i].0 != key {
        assert i >= |before| ==> both[i] in added;
      }
      Assoc(before, added, [(key, value)]);
    }
  }

  // ----- tools -----

  function ToolExtras(tool: Value): seq<(string, Value)>
    requires tool.Obj?
  {
    Added(tool, SortedKeys(Keys(tool)), TOOL_KEYS, [("name", Null), ("description_bytes", Null), ("schema_bytes", Null)])
  }

  /** A size, unless the tool has a key of that name itself. */
  function Shown(tool: Value, key: string, n: nat): Value
    requires tool.Obj?
  {
    if key in Keys(tool) then GetOr(tool, key, Null) else Sized(n)
  }

  function DescriptionShown(tool: Value): Value
    requires tool.Obj?
  {
    Shown(tool, "description_bytes", Size(GetOr(tool, "description", NO_TEXT)))
  }

  function SchemaShown(tool: Value): Value
    requires tool.Obj?
  {
    Shown(tool, "schema_bytes", Size(GetOr(tool, "input_schema", Obj([]))))
  }

  predicate ToolsReadAlike(x: Value, y: Value, ma: map<string, string>, mb: map<string, string>)
    requires IsNamed(x) && IsNamed(y)
  {
    && MaskOf(ma, Stripped(x)) == MaskOf(mb, Stripped(y))
    && DescriptionShown(x) == DescriptionShown(y)
    && SchemaShown(x) == SchemaShown(y)
    && ToolExtras(x) == ToolExtras(y)
    && Get(x, "cache_control") == Get(y, "cache_control")
  }

  lemma {:induction false} AddedByKeys(
      v: Value, keys: seq<string>, except: seq<string>, a: seq<(string, Value)>, b: seq<(string, Value)>)
    requires |a| == |b| && forall i | 0 <= i < |a| :: a[i].0 == b[i].0
    ensures Added(v, keys, except, a) == Added(v, keys, except, b)
  {
    if keys != [] {
      AddedByKeys(v, keys[..|keys| - 1], except, a, b);
      var key := keys[|keys| - 1];
      assert HasKey(a, key) <==> HasKey(b, key);
    }
  }

  lemma ToolIs(tool: Value, masks: map<string, string>) returns (start: seq<(string, Value)>)
    requires IsNamed(tool)
    ensures start == [("name", MaskOf(masks, Stripped(tool))), ("description_bytes", DescriptionShown(tool)),
                      ("schema_bytes", SchemaShown(tool))]
    ensures ToolOf(tool, masks) == Obj(Marked(start + ToolExtras(tool), tool))
    ensures forall e | e in start + ToolExtras(tool) :: e.0 != "cache_control"
  {
    hide SortedKeys, Size, Sized, Stripped, MaskOf, Carried, Marked, Added, GetOr, HasKey;
    var keys, given := SortedKeys(Keys(tool)), ToolStart(tool, masks);
    start := [
      ("name", MaskOf(masks, Stripped(tool))),
      ("description_bytes", DescriptionShown(tool)),
      ("schema_bytes", SchemaShown(tool))];
    CarriedIs(tool, keys, TOOL_KEYS, given);
    AddedHolds(tool, keys, TOOL_KEYS, given);
    AddedByKeys(tool, keys, TOOL_KEYS, given, [("name", Null), ("description_bytes", Null), ("schema_bytes", Null)]);
    InSorted(Keys(tool), "description_bytes");
    InSorted(Keys(tool), "schema_bytes");
    assert Overridden(tool, keys, TOOL_KEYS, given) == start;
  }

  lemma InSorted(keys: seq<string>, key: string)
    ensures key in SortedKeys(keys) <==> key in keys
  {
    assert key in multiset(SortedKeys(keys)) <==> key in multiset(keys);
  }

  lemma SameEnds<T>(a: seq<T>, b: seq<T>, p: T, q: T)
    ensures a + [p] == b + [q] <==> a == b && p == q
  {
    if a + [p] == b + [q] {
      assert |a| == |b| && (a + [p])[..|a|] == a && (b + [q])[..|b|] == b;
      assert (a + [p])[|a|] == p && (b + [q])[|b|] == q;
    }
  }

  lemma SameParts<T>(a: seq<T>, b: seq<T>, c: seq<T>, d: seq<T>)
    requires |a| == |b|
    ensures a + c == b + d <==> a == b && c == d
  {
    Seam(a, c);
    Seam(b, d);
  }

  lemma MarkersShow(a: seq<(string, Value)>, b: seq<(string, Value)>, x: Value, y: Value)
    requires (forall e | e in a :: e.0 != "cache_control") && forall e | e in b :: e.0 != "cache_control"
    ensures Marked(a, x) == Marked(b, y) <==> a == b && Get(x, "cache_control") == Get(y, "cache_control")
  {
    var c, d := Get(x, "cache_control"), Get(y, "cache_control");
    MarkedIs(a, x);
    MarkedIs(b, y);
    hide Marked;
    if c.Some? && d.Some? {
      SameEnds(a, b, ("cache_control", c.value), ("cache_control", d.value));
    } else if c.Some? {
      NotTheLast(a, b, ("cache_control", c.value));
    } else if d.Some? {
      NotTheLast(b, a, ("cache_control", d.value));
    }
  }

  lemma MarkedIs(a: seq<(string, Value)>, x: Value)
    requires forall e | e in a :: e.0 != "cache_control"
    ensures Marked(a, x) == match Get(x, "cache_control") { case None => a case Some(c) => a + [("cache_control", c)] }
  {}

  lemma NotTheLast(a: seq<(string, Value)>, b: seq<(string, Value)>, p: (string, Value))
    requires p !in b
    ensures a + [p] != b
  {
    assert (a + [p])[|a|] == p;
  }

  /** Two tools reduce alike exactly when they read alike: by the same mask, of the same sizes, marked alike,
      with the same keys besides. */
  lemma ToolsShow(x: Value, y: Value, ma: map<string, string>, mb: map<string, string>)
    requires IsNamed(x) && IsNamed(y)
    ensures ToolOf(x, ma) == ToolOf(y, mb) <==> ToolsReadAlike(x, y, ma, mb)
  {
    hide ToolOf, Marked, ToolExtras, DescriptionShown, SchemaShown, Stripped, MaskOf;
    var a := ToolIs(x, ma);
    var b := ToolIs(y, mb);
    MarkersShow(a + ToolExtras(x), b + ToolExtras(y), x, y);
    SameParts(a, b, ToolExtras(x), ToolExtras(y));
    ListsOfThree(a[0], b[0], a[1], b[1], a[2], b[2]);
  }

  /** A text replaced inside a tool's schema keeps the skeleton exactly when it's written at the same length. */
  lemma SchemaTextsCountAsWritten(
      x: Value, y: Value, schema: Value, path: seq<nat>, text: string, masks: map<string, string>)
    requires IsNamed(x) && IsNamed(y) && SameKeys(x, y) && SameBut(x, y, ["input_schema"])
    requires "schema_bytes" !in Keys(x) && path != [] && TextAt(schema, path).Some?
    requires Get(x, "input_schema") == Some(schema) && Get(y, "input_schema") == Some(WithTextAt(schema, path, text))
    ensures ToolOf(x, masks) == ToolOf(y, masks) <==> Escaped(text) == Escaped(TextAt(schema, path).value)
  {
    hide ToolOf, Escaped, Dumped, SortedKeys, Sized, MaskOf, Strip, Added, SameBut;
    var edited := WithTextAt(schema, path, text);
    SizeFollowsTheText(schema, path, text);
    SizedTellsApart(Dumped(schema), Dumped(edited));
    SortedAlike(Keys(x), Keys(y));
    OtherKeys(x, y);
    AddedAlike(x, y, SortedKeys(Keys(x)), TOOL_KEYS, [("name", Null), ("description_bytes", Null), ("schema_bytes", Null)]);
    ToolsShow(x, y, masks, masks);
  }

  /** Between plain texts the bytes decide here too. */
  lemma PlainSchemaTextsCountAsBytes(
      x: Value, y: Value, schema: Value, path: seq<nat>, text: string, masks: map<string, string>)
    requires IsNamed(x) && IsNamed(y) && SameKeys(x, y) && SameBut(x, y, ["input_schema"])
    requires "schema_bytes" !in Keys(x) && path != [] && TextAt(schema, path).Some?
    requires Get(x, "input_schema") == Some(schema) && Get(y, "input_schema") == Some(WithTextAt(schema, path, text))
    requires IsPlainText(text) && IsPlainText(TextAt(schema, path).value)
    ensures ToolOf(x, masks) == ToolOf(y, masks) <==> Utf8(text) == Utf8(TextAt(schema, path).value)
  {
    hide ToolOf, Escaped, Utf8, IsNamed, IsPlain, SameBut, SameKeys, WithTextAt, TextAt;
    SchemaTextsCountAsWritten(x, y, schema, path, text, masks);
    PlainTextIsWrittenAsItIs(text);
    PlainTextIsWrittenAsItIs(TextAt(schema, path).value);
  }

  lemma OtherKeys(x: Value, y: Value)
    requires x.Obj? && y.Obj? && SameKeys(x, y) && SameBut(x, y, ["input_schema"])
    ensures SameBut(x, y, TOOL_KEYS)
    ensures forall key | key != "input_schema" :: Get(x, key) == Get(y, key) && (key in Keys(x) <==> key in Keys(y))
  {
    forall key | key != "input_schema" ensures Get(x, key) == Get(y, key) && (key in Keys(x) <==> key in Keys(y)) {
      assert key !in ["input_schema"];
      assert key in multiset(Keys(x)) <==> key in multiset(Keys(y));
    }
    assert "input_schema" in TOOL_KEYS by {
      assert TOOL_KEYS[2] == "input_schema";
    }
  }

  lemma {:induction false} AddedAlike(
      x: Value, y: Value, keys: seq<string>, except: seq<string>, start: seq<(string, Value)>)
    requires SameBut(x, y, except)
    ensures Added(x, keys, except, start) == Added(y, keys, except, start)
  {
    hide HasKey;
    if keys != [] {
      AddedAlike(x, y, keys[..|keys| - 1], except, start);
    }
  }

  // ----- messages -----

  function MessageExtras(message: Value): seq<(string, Value)>
    requires message.Obj?
  {
    Added(message, SortedKeys(Keys(message)), MESSAGE_KEYS, [("role", Null), ("content", Null)])
  }

  /** A message's blocks as they stand; content that's no list is one. */
  function BlocksIn(message: Value): (blocks: seq<Value>)
    requires IsMessage(message)
    ensures forall b | b in blocks :: IsBlock(b)
  {
    if ContentOf(message).Arr? then ContentOf(message).items else [ContentOf(message)]
  }

  predicate MessagesReadAlike(x: Value, y: Value, ma: map<string, string>, mb: map<string, string>)
    requires IsMessage(x) && IsMessage(y)
  {
    && GetOr(x, "role", Str("?")) == GetOr(y, "role", Str("?"))
    && AllReadAlike(BlocksIn(x), BlocksIn(y), ma, mb)
    && MessageExtras(x) == MessageExtras(y)
  }

  lemma MessageIs(message: Value, masks: map<string, string>)
    requires IsMessage(message)
    ensures MessageOf(message, masks) ==
              Obj([("role", GetOr(message, "role", Str("?"))), ("content", Arr(MessageBlocks(message, masks)))]
                  + MessageExtras(message))
  {
    hide SortedKeys, IsBlock, MessageBlocks, Carried, Added, GetOr;
    var keys, start := SortedKeys(Keys(message)), MessageStart(message, masks);
    CarriedIs(message, keys, MESSAGE_KEYS, start);
    AddedByKeys(message, keys, MESSAGE_KEYS, start, [("role", Null), ("content", Null)]);
    assert Overridden(message, keys, MESSAGE_KEYS, start) == start;
  }

  lemma BlocksInAreReduced(message: Value, masks: map<string, string>)
    requires IsMessage(message)
    ensures MessageBlocks(message, masks) == BlocksOf(BlocksIn(message), masks)
  {
    hide BlockOf, IsBlock;
  }

  /** Two messages reduce alike exactly when they have the same role, blocks that read alike pair by pair, and
      the same keys besides. */
  lemma MessagesShow(x: Value, y: Value, ma: map<string, string>, mb: map<string, string>)
    requires IsMessage(x) && IsMessage(y)
    ensures MessageOf(x, ma) == MessageOf(y, mb) <==> MessagesReadAlike(x, y, ma, mb)
  {
    hide MessageOf, MessageBlocks, MessageExtras, GetOr, IsBlock, BlocksOf, AllReadAlike;
    MessageIs(x, ma);
    MessageIs(y, mb);
    BlocksInAreReduced(x, ma);
    BlocksInAreReduced(y, mb);
    ListsShow(BlocksIn(x), BlocksIn(y), ma, mb);
    var p, q := ("role", GetOr(x, "role", Str("?"))), ("role", GetOr(y, "role", Str("?")));
    var p', q' := ("content", Arr(MessageBlocks(x, ma))), ("content", Arr(MessageBlocks(y, mb)));
    SameParts([p, p'], [q, q'], MessageExtras(x), MessageExtras(y));
    ListsOfTwo(p, q, p', q');
  }

  // ----- requests -----

  predicate AllToolsReadAlike(a: seq<Value>, b: seq<Value>, ma: map<string, string>, mb: map<string, string>)
    requires (forall t | t in a :: IsNamed(t)) && (forall t | t in b :: IsNamed(t))
  {
    |a| == |b| && forall i | 0 <= i < |a| :: ToolsReadAlike(a[i], b[i], ma, mb)
  }

  lemma AllToolsShow(a: seq<Value>, b: seq<Value>, ma: map<string, string>, mb: map<string, string>)
    requires (forall t | t in a :: IsNamed(t)) && (forall t | t in b :: IsNamed(t))
    ensures ToolSkeletonsOf(a, ma) == ToolSkeletonsOf(b, mb) <==> AllToolsReadAlike(a, b, ma, mb)
  {
    hide IsNamed, ToolOf, ToolsReadAlike;
    var x, y := ToolSkeletonsOf(a, ma), ToolSkeletonsOf(b, mb);
    if |a| == |b| {
      forall i | 0 <= i < |a| ensures x[i] == y[i] <==> ToolsReadAlike(a[i], b[i], ma, mb) {
        ToolsShow(a[i], b[i], ma, mb);
      }
    } else {
      assert |x| != |y|;
    }
  }

  predicate AllMessagesReadAlike(a: seq<Value>, b: seq<Value>, ma: map<string, string>, mb: map<string, string>)
    requires (forall m | m in a :: IsMessage(m)) && (forall m | m in b :: IsMessage(m))
  {
    |a| == |b| && forall i | 0 <= i < |a| :: MessagesReadAlike(a[i], b[i], ma, mb)
  }

  lemma AllMessagesShow(a: seq<Value>, b: seq<Value>, ma: map<string, string>, mb: map<string, string>)
    requires (forall m | m in a :: IsMessage(m)) && (forall m | m in b :: IsMessage(m))
    ensures MessageSkeletonsOf(a, ma) == MessageSkeletonsOf(b, mb) <==> AllMessagesReadAlike(a, b, ma, mb)
  {
    hide IsMessage, MessageOf, MessagesReadAlike;
    var x, y := MessageSkeletonsOf(a, ma), MessageSkeletonsOf(b, mb);
    if |a| == |b| {
      forall i | 0 <= i < |a| ensures x[i] == y[i] <==> MessagesReadAlike(a[i], b[i], ma, mb) {
        MessagesShow(a[i], b[i], ma, mb);
      }
    } else {
      assert |x| != |y|;
    }
  }

  /** A system prompt's blocks: a text is one of them, and anything but a text or a list is none at all. */
  function SystemBlocks(body: Value): (blocks: Option<seq<Value>>)
    requires SystemReduces(Get(body, "system"))
    ensures blocks.Some? ==> forall b | b in blocks.value :: IsBlock(b)
  {
    match Get(body, "system")
    case Some(Str(text)) => Some([Str(text)])
    case Some(Arr(items)) => Some(items)
    case _ => None
  }

  predicate SystemsReadAlike(a: Value, b: Value, ma: map<string, string>, mb: map<string, string>)
    requires SystemReduces(Get(a, "system")) && SystemReduces(Get(b, "system"))
  {
    match (SystemBlocks(a), SystemBlocks(b))
    case (Some(s), Some(t)) => AllReadAlike(s, t, ma, mb)
    case (None, None) => true
    case _ => false
  }

  lemma SystemsShow(a: Value, b: Value, ma: map<string, string>, mb: map<string, string>)
    requires SystemReduces(Get(a, "system")) && SystemReduces(Get(b, "system"))
    ensures SystemOf(a, ma) == SystemOf(b, mb) <==> SystemsReadAlike(a, b, ma, mb)
  {
    hide BlocksOf, AllReadAlike, IsBlock;
    SystemIs(a, ma);
    SystemIs(b, mb);
    if SystemBlocks(a).Some? && SystemBlocks(b).Some? {
      ListsShow(SystemBlocks(a).value, SystemBlocks(b).value, ma, mb);
    }
  }

  lemma SystemIs(body: Value, masks: map<string, string>)
    requires SystemReduces(Get(body, "system"))
    ensures SystemOf(body, masks) == match SystemBlocks(body) { case Some(s) => Arr(BlocksOf(s, masks)) case None => Null }
  {
    hide BlockOf;
    if SystemBlocks(body).Some? && Get(body, "system").value.Str? {
      var text := Get(body, "system").value;
      assert BlocksOf([text], masks) == [BlockOf(text, masks)];
    }
  }

  /** Two requests read alike: the same parameters, and a system, tools and messages that read alike, pair
      by pair. */
  ghost predicate RequestsReadAlike(a: Value, b: Value)
    requires IsReducible(a) && IsReducible(b)
  {
    var ma, mb := Masks(ToolsOf(a).value), Masks(ToolsOf(b).value);
    && ParametersReadAlike(a, b)
    && SystemsReadAlike(a, b, ma, mb)
    && AllToolsReadAlike(ToolsOf(a).value, ToolsOf(b).value, ma, mb)
    && AllMessagesReadAlike(MessagesOf(a).value, MessagesOf(b).value, ma, mb)
  }

  /** Two requests have the same skeleton exactly when they read alike; and then the same places of their
      tools share names. */
  lemma RequestsShow(a: Value, b: Value)
    requires IsReducible(a) && IsReducible(b)
    ensures ReducedOf(a) == ReducedOf(b) <==> RequestsReadAlike(a, b)
    ensures ReducedOf(a) == ReducedOf(b) ==>
              |ToolsOf(a).value| == |ToolsOf(b).value| && SamePattern(ToolsOf(a).value, ToolsOf(b).value)
  {
    hide SortedKeys, IsNamed, Masks, IsMessage, ParametersOf, SystemOf, ToolsOf, MessagesOf, SystemReduces;
    hide ToolSkeletonsOf, MessageSkeletonsOf, SamePattern, AllToolsReadAlike, AllMessagesReadAlike, SystemsReadAlike;
    hide ParametersReadAlike;
    var ta, tb := ToolsOf(a).value, ToolsOf(b).value;
    AllToolsShow(ta, tb, Masks(ta), Masks(tb));
    AllMessagesShow(MessagesOf(a).value, MessagesOf(b).value, Masks(ta), Masks(tb));
    SystemsShow(a, b, Masks(ta), Masks(tb));
    ParametersShow(a, b);
    ListsOfFour(ReducedOf(a).entries, ReducedOf(b).entries);
    if AllToolsReadAlike(ta, tb, Masks(ta), Masks(tb)) {
      PatternShows(ta, tb);
    }
  }

  lemma ListsOfFour<T>(a: seq<T>, b: seq<T>)
    requires |a| == |b| == 4
    ensures a == b <==> a[0] == b[0] && a[1] == b[1] && a[2] == b[2] && a[3] == b[3]
  {}

  lemma PatternShows(a: seq<Value>, b: seq<Value>)
    requires (forall t | t in a :: IsNamed(t)) && (forall t | t in b :: IsNamed(t))
    requires AllToolsReadAlike(a, b, Masks(a), Masks(b))
    ensures |a| == |b| && SamePattern(a, b)
  {
    hide IsNamed, Stripped, Masks, MaskOf, SamePattern;
    forall i | 0 <= i < |a| ensures MaskOf(Masks(a), Stripped(a[i])) == MaskOf(Masks(b), Stripped(b[i])) {
      assert ToolsReadAlike(a[i], b[i], Masks(a), Masks(b));
    }
    MasksShowThePattern(a, b);
  }
}
