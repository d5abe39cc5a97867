/** What each part of a skeleton holds, key by key, and what is refused or raises, in plain terms. */
module SkeletonKeeps {
  import opened Text
  import opened Json
  import Order
  import opened Skeleton
  import opened SkeletonEdits
  import opened SkeletonParameters
  import opened SkeletonRequests
  import opened SkeletonSizes

  function Or(found: Option<Value>, default: Value): Value {
    match found case Some(value) => value case None => default
  }

  /** A number as `json.dumps` writes a count. */
  ghost predicate IsCount(found: Option<Value>, n: nat) { found == Some(Number(Show(n))) }

  /** The size of a value, or of an empty text where there is none. */
  ghost function SizeOr(found: Option<Value>, default: Value): nat {
    match Or(found, default) case Str(text) => |EncodedAll(text)| case v => |Written(v)|
  }

  lemma SizesAreSo(v: Value, key: string, default: Value)
    ensures Size(GetOr(v, key, default)) == SizeOr(Get(v, key), default)
  {
    SizeIsWhatItSays(GetOr(v, key, default));
  }

  /** Python's falsehoods among JSON values. */
  lemma FalsehoodsAre(v: Value)
    ensures !Truthy(v) <==>
              v in {Null, Bool(false), Number("0"), Number("0.0"), Number("-0.0"), Str(""), Arr([]), Obj([])}
  {
    match v
    case Number(written) => assert ["0", "0.0", "-0.0"][0] == "0" && ["0", "0.0", "-0.0"][1] == "0.0"
                                   && ["0", "0.0", "-0.0"][2] == "-0.0";
    case _ =>
  }

  // ----- blocks -----

  /** A block's skeleton: these entries, and its marker behind them when it has one. */
  ghost predicate Holds(out: Value, entries: seq<(string, Value)>, block: Value) {
    out == match Get(block, "cache_control")
           case None => Obj(entries)
           case Some(control) => Obj(entries + [("cache_control", control)])
  }

  function Count(n: nat): Value { Number(Show(n)) }

  lemma MarkerIsLast(entries: seq<(string, Value)>, block: Value)
    requires forall i | 0 <= i < |entries| :: entries[i].0 != "cache_control"
    ensures Holds(Obj(Marked(entries, block)), entries, block)
  {
    if Get(block, "cache_control").Some? {
      SetNew(entries, "cache_control", Get(block, "cache_control").value);
    }
  }

  lemma BareTextHolds(text: string, masks: map<string, string>)
    ensures BlockOf(Str(text), masks) == Obj([("type", Str("text")), ("bytes", Count(|EncodedAll(text)|))])
  {
    SizeIsItsBytes(text);
  }

  lemma TextHolds(block: Value, masks: map<string, string>)
    requires Get(block, "type") == Some(Str("text"))
    ensures IsBlock(block)
    ensures Holds(BlockOf(block, masks),
                  [("type", Str("text")), ("bytes", Count(SizeOr(Get(block, "text"), Str(""))))], block)
  {
    hide Size, Marked;
    SizesAreSo(block, "text", Str(""));
    MarkerIsLast([("type", Str("text")), ("bytes", Count(SizeOr(Get(block, "text"), Str(""))))], block);
    assert [("type", Str("text"))] + Details(block, masks)
        == [("type", Str("text")), ("bytes", Count(SizeOr(Get(block, "text"), Str(""))))];
  }

  lemma ThinkingHolds(block: Value, masks: map<string, string>)
    requires Get(block, "type") == Some(Str("thinking"))
    ensures IsBlock(block)
    ensures Holds(BlockOf(block, masks),
                  [("type", Str("thinking")), ("bytes", Count(SizeOr(Get(block, "thinking"), Str("")))),
                   ("signature", Bool(Truthy(Or(Get(block, "signature"), Null))))], block)
  {
    hide Size, Marked, Truthy;
    SizesAreSo(block, "thinking", Str(""));
    var entries := [("type", Str("thinking")), ("bytes", Count(SizeOr(Get(block, "thinking"), Str("")))),
                    ("signature", Bool(Truthy(Or(Get(block, "signature"), Null))))];
    MarkerIsLast(entries, block);
    assert [("type", Str("thinking"))] + Details(block, masks) == entries;
  }

  lemma RedactedHolds(block: Value, masks: map<string, string>)
    requires Get(block, "type") == Some(Str("redacted_thinking"))
    ensures IsBlock(block)
    ensures Holds(BlockOf(block, masks),
                  [("type", Str("redacted_thinking")), ("bytes", Count(SizeOr(Get(block, "data"), Str(""))))], block)
  {
    hide Size, Marked;
    SizesAreSo(block, "data", Str(""));
    var entries := [("type", Str("redacted_thinking")), ("bytes", Count(SizeOr(Get(block, "data"), Str(""))))];
    MarkerIsLast(entries, block);
    assert [("type", Str("redacted_thinking"))] + Details(block, masks) == entries;
  }

  /** What is listed of an input: a question mark for what is no table, and otherwise its keys, unsorted. */
  function KeyList(input: Value): Value {
    match input
    case Obj(entries) => Texts(Keys(Obj(entries)))
    case _ => Str("?")
  }

  lemma KeysAreListed(input: Value)
    ensures InputKeys(input) == KeyList(input)
  {
    if input.Obj? {
      assert InputKeys(input).items == Texts(Keys(input)).items;
    }
  }

  lemma ToolUseHolds(block: Value, name: string, masks: map<string, string>)
    requires Get(block, "type") == Some(Str("tool_use")) && Or(Get(block, "name"), Str("")) == Str(name)
    ensures IsBlock(block)
    ensures Holds(BlockOf(block, masks),
                  [("type", Str("tool_use")), ("name", Str(if Strip(name) in masks then masks[Strip(name)] else "T?")),
                   ("input_keys", KeyList(Or(Get(block, "input"), Obj([])))),
                   ("input_bytes", Count(SizeOr(Get(block, "input"), Obj([]))))], block)
  {
    hide Size, Marked, Strip, KeyList, Details;
    var entries := [("type", Str("tool_use")), ("name", Str(if Strip(name) in masks then masks[Strip(name)] else "T?")),
                    ("input_keys", KeyList(Or(Get(block, "input"), Obj([])))),
                    ("input_bytes", Count(SizeOr(Get(block, "input"), Obj([]))))];
    MarkerIsLast(entries, block);
    ToolUseDetails(block, name, masks);
    assert [("type", Str("tool_use"))] + Details(block, masks) == entries;
  }

  lemma ToolUseDetails(block: Value, name: string, masks: map<string, string>)
    requires Get(block, "type") == Some(Str("tool_use")) && Or(Get(block, "name"), Str("")) == Str(name)
    ensures IsBlock(block)
    ensures Details(block, masks) ==
              [("name", Str(if Strip(name) in masks then masks[Strip(name)] else "T?")),
               ("input_keys", KeyList(Or(Get(block, "input"), Obj([])))),
               ("input_bytes", Count(SizeOr(Get(block, "input"), Obj([]))))]
  {
    hide Size, Strip, InputKeys, KeyList;
    SizesAreSo(block, "input", Obj([]));
    KeysAreListed(Or(Get(block, "input"), Obj([])));
  }

  lemma ResultHolds(block: Value, masks: map<string, string>)
    requires Get(block, "type") == Some(Str("tool_result")) && IsBlock(block)
    requires Get(block, "content").None? || !Get(block, "content").value.Arr?
    ensures Holds(BlockOf(block, masks),
                  [("type", Str("tool_result")), ("is_error", Bool(Truthy(Or(Get(block, "is_error"), Bool(false))))),
                   ("bytes", Count(SizeOr(Get(block, "content"), Str(""))))], block)
  {
    hide Size, Marked, Truthy;
    SizesAreSo(block, "content", Str(""));
    var entries := [("type", Str("tool_result")), ("is_error", Bool(Truthy(Or(Get(block, "is_error"), Bool(false))))),
                    ("bytes", Count(SizeOr(Get(block, "content"), Str(""))))];
    MarkerIsLast(entries, block);
    assert [("type", Str("tool_result"))] + Details(block, masks) == entries;
  }

  lemma ListedResultHolds(block: Value, items: seq<Value>, masks: map<string, string>)
    requires Get(block, "type") == Some(Str("tool_result")) && IsBlock(block)
    requires Get(block, "content") == Some(Arr(items))
    ensures forall i | 0 <= i < |items| :: IsBlock(items[i])
    ensures Holds(BlockOf(block, masks),
                  [("type", Str("tool_result")), ("is_error", Bool(Truthy(Or(Get(block, "is_error"), Bool(false))))),
                   ("content", Arr(BlocksOf(items, masks)))], block)
  {
    hide Size, Marked, Truthy;
    var entries := [("type", Str("tool_result")), ("is_error", Bool(Truthy(Or(Get(block, "is_error"), Bool(false))))),
                    ("content", Arr(BlocksOf(items, masks)))];
    MarkerIsLast(entries, block);
    assert [("type", Str("tool_result"))] + Details(block, masks) == entries;
  }

  /** A block of any other type, or of none, by what's written of it whole. */
  lemma OtherHolds(block: Value, masks: map<string, string>)
    requires block.Obj?
    requires Or(Get(block, "type"), Str("?")) !in {Str("text"), Str("thinking"), Str("redacted_thinking"),
                                                   Str("tool_use"), Str("tool_result")}
    ensures IsBlock(block)
    ensures Holds(BlockOf(block, masks),
                  [("type", Or(Get(block, "type"), Str("?"))), ("bytes", Count(|Written(block)|))], block)
  {
    hide Size, Marked;
    SizeIsWhatItSays(block);
    var entries := [("type", Or(Get(block, "type"), Str("?"))), ("bytes", Count(|Written(block)|))];
    MarkerIsLast(entries, block);
    assert [("type", KindOf(block))] + Details(block, masks) == entries;
  }

  /** What can be reduced: a text, and a table whose tool's name is a text and whose result's blocks can be. */
  lemma BlocksAre(block: Value)
    ensures IsBlock(block) <==>
              || block.Str?
              || (&& block.Obj?
                  && (Get(block, "type") == Some(Str("tool_use")) ==> Or(Get(block, "name"), Str("")).Str?)
                  && (Get(block, "type") == Some(Str("tool_result")) && Get(block, "content").Some?
                      && Get(block, "content").value.Arr? ==>
                        forall b | b in Get(block, "content").value.items :: IsBlock(b)))
  {
    match Get(block, "content")
    case Some(Arr(items)) =>
      assert (forall b | b in items :: IsBlock(b)) <==> forall i | 0 <= i < |items| :: IsBlock(items[i]);
    case _ =>
  }

  // ----- tools -----

  /** The first tool by a tool's name, prefixes aside. */
  ghost predicate IsFirst(tools: seq<Value>, i: nat, first: nat)
    requires i < |tools| && forall t | t in tools :: Or(Get(t, "name"), Str("")).Str?
  {
    && first <= i
    && Strip(Or(Get(tools[first], "name"), Str("")).text) == Strip(Or(Get(tools[i], "name"), Str("")).text)
    && forall j | 0 <= j < first ::
         Strip(Or(Get(tools[j], "name"), Str("")).text) != Strip(Or(Get(tools[i], "name"), Str("")).text)
  }

  lemma {:induction false} LookupConcat(a: seq<(string, Value)>, b: seq<(string, Value)>, key: string)
    ensures Lookup(a + b, key) == if Lookup(a, key).Some? then Lookup(a, key) else Lookup(b, key)
  {
    if a == [] {
      assert a + b == b;
    } else {
      assert (a + b)[1..] == a[1..] + b;
      LookupConcat(a[1..], b, key);
    }
  }

  /** What's carried over besides: each key that's neither left out nor there already, as it is. */
  lemma ExtrasHold(v: Value, except: seq<string>, start: seq<(string, Value)>, key: string)
    requires v.Obj?
    ensures Lookup(Added(v, SortedKeys(Keys(v)), except, start), key)
         == if key in except || HasKey(start, key) then None else Get(v, key)
  {
    hide HasKey, SortedKeys, Added;
    var added := Added(v, SortedKeys(Keys(v)), except, start);
    AddedHolds(v, SortedKeys(Keys(v)), except, start);
    KeysAreSorted(Keys(v));
    InKeys(v, key);
    if HasKey(added, key) {
      HeldIsLookedUp(added, key);
    } else {
      NotHeld(added, key);
    }
  }

  lemma HeldIsLookedUp(entries: seq<(string, Value)>, key: string)
    requires HasKey(entries, key)
    ensures Lookup(entries, key).Some? && (key, Lookup(entries, key).value) in entries
  {
    var i :| 0 <= i < |entries| && entries[i].0 == key;
    assert entries[i] in entries;
  }

  lemma NotHeld(entries: seq<(string, Value)>, key: string)
    requires !HasKey(entries, key)
    ensures Lookup(entries, key) == None
  {
    forall e | e in entries ensures e.0 != key {
      var i :| 0 <= i < |entries| && entries[i] == e;
    }
  }

  lemma MarkerHeld(entries: seq<(string, Value)>, v: Value, key: string)
    requires forall e | e in entries :: e.0 != "cache_control"
    ensures Lookup(Marked(entries, v), key) ==
              if key == "cache_control" then Get(v, "cache_control") else Lookup(entries, key)
  {
    MarkedIs(entries, v);
    match Get(v, "cache_control")
    case None =>
    case Some(control) => LookupConcat(entries, [("cache_control", control)], key);
  }

  lemma ToolKeysAre(key: string)
    ensures key in TOOL_KEYS <==> key == "name" || key == "description" || key == "input_schema" || key == "cache_control"
  {
    assert TOOL_KEYS[0] == "name" && TOOL_KEYS[1] == "description" && TOOL_KEYS[2] == "input_schema"
           && TOOL_KEYS[3] == "cache_control";
  }

  /** A tool's skeleton key by key: its mask, its sizes, its marker, and what else it holds, which stands for a size
      of its name if it has one. */
  lemma ToolOfHolds(tool: Value, masks: map<string, string>, key: string)
    requires IsNamed(tool)
    ensures Get(ToolOf(tool, masks), key) ==
              if key == "name" then Some(MaskOf(masks, Stripped(tool)))
              else if key == "description" || key == "input_schema" then None
              else if key == "description_bytes" && Get(tool, key).None? then
                Some(Count(SizeOr(Get(tool, "description"), Str(""))))
              else if key == "schema_bytes" && Get(tool, key).None? then
                Some(Count(SizeOr(Get(tool, "input_schema"), Obj([]))))
              else Get(tool, key)
  {
    hide MaskOf, Stripped, ToolOf, Marked, Size, ToolExtras, DescriptionShown, SchemaShown;
    var start := ToolIs(tool, masks);
    MarkerHeld(start + ToolExtras(tool), tool, key);
    LookupConcat(start, ToolExtras(tool), key);
    ToolExtrasHold(tool, key);
    SizesShown(tool);
  }

  lemma ToolExtrasHold(tool: Value, key: string)
    requires tool.Obj?
    ensures Lookup(ToolExtras(tool), key) ==
              if key == "name" || key == "description" || key == "input_schema" || key == "cache_control"
                 || key == "description_bytes" || key == "schema_bytes"
              then None else Get(tool, key)
  {
    var start := [("name", Null), ("description_bytes", Null), ("schema_bytes", Null)];
    ToolKeysAre(key);
    ExtrasHold(tool, TOOL_KEYS, start, key);
    assert start[0].0 == "name" && start[1].0 == "description_bytes" && start[2].0 == "schema_bytes";
  }

  lemma SizesShown(tool: Value)
    requires tool.Obj?
    ensures DescriptionShown(tool) == match Get(tool, "description_bytes")
                                      case Some(own) => own
                                      case None => Count(SizeOr(Get(tool, "description"), Str("")))
    ensures SchemaShown(tool) == match Get(tool, "schema_bytes")
                                 case Some(own) => own
                                 case None => Count(SizeOr(Get(tool, "input_schema"), Obj([])))
  {
    hide Size;
    InKeys(tool, "description_bytes");
    InKeys(tool, "schema_bytes");
    SizesAreSo(tool, "description", Str(""));
    SizesAreSo(tool, "input_schema", Obj([]));
  }

  /** A tool's mask is the place of the first of its name, counted from one. */
  lemma MaskCounts(tools: seq<Value>, i: nat) returns (first: nat)
    requires (forall t | t in tools :: IsNamed(t)) && i < |tools|
    ensures (forall t | t in tools :: Or(Get(t, "name"), Str("")).Str?) && IsFirst(tools, i, first)
    ensures MaskOf(Masks(tools), Stripped(tools[i])) == Str("T" + Show(first + 1))
  {
    hide Strip, Masks;
    first := MaskIsAPlace(tools, i);
    assert forall j | 0 <= j < |tools| :: tools[j] in tools;
  }

  // ----- messages -----

  /** A message's skeleton key by key: its role, its blocks in order, and what else it holds. */
  lemma MessageHolds(message: Value, masks: map<string, string>, key: string)
    requires IsMessage(message)
    ensures Get(MessageOf(message, masks), key) ==
              if key == "role" then Some(Or(Get(message, "role"), Str("?")))
              else if key == "content" then Some(Arr(BlocksOf(BlocksIn(message), masks)))
              else Get(message, key)
  {
    hide MessageOf, BlocksIn, BlocksOf, MessageExtras, IsBlock;
    MessageIs(message, masks);
    BlocksInAreReduced(message, masks);
    var start := [("role", GetOr(message, "role", Str("?"))), ("content", Arr(MessageBlocks(message, masks)))];
    LookupConcat(start, MessageExtras(message), key);
    MessageExtrasHold(message, key);
  }

  lemma MessageExtrasHold(message: Value, key: string)
    requires message.Obj?
    ensures Lookup(MessageExtras(message), key) ==
              if key == "role" || key == "content" then None else Get(message, key)
  {
    var start := [("role", Null), ("content", Null)];
    ExtrasHold(message, MESSAGE_KEYS, start, key);
    assert start[0].0 == "role" && start[1].0 == "content";
    assert MESSAGE_KEYS[0] == "role" && MESSAGE_KEYS[1] == "content";
  }

  /** A message's blocks are its content, or an empty text where there is none. */
  lemma MessagesAre(message: Value)
    ensures IsMessage(message) <==>
              && message.Obj?
              && match Or(Get(message, "content"), Str(""))
                 case Arr(items) => forall b | b in items :: IsBlock(b)
                 case content => IsBlock(content)
    ensures IsMessage(message) ==>
              BlocksIn(message) == match Or(Get(message, "content"), Str(""))
                                   case Arr(items) => items
                                   case content => [content]
  {
    hide IsBlock;
  }

  // ----- the request -----

  /** What a loop runs through, by the key it's under. */
  ghost predicate RunsThrough(found: Option<Value>, items: seq<Value>) {
    match found
    case None => items == []
    case Some(Arr(list)) => items == list
    case Some(Str(text)) => |items| == |text| && forall i | 0 <= i < |text| :: items[i] == Str([text[i]])
    case Some(Obj(entries)) => |items| == |entries| && forall i | 0 <= i < |entries| :: items[i] == Str(entries[i].0)
    case _ => false
  }

  lemma LoopsRunThrough(body: Value)
    ensures ToolsOf(body).Some? <==> exists items :: RunsThrough(Get(body, "tools"), items)
    ensures ToolsOf(body).Some? ==> RunsThrough(Get(body, "tools"), ToolsOf(body).value)
    ensures MessagesOf(body).Some? <==> exists items :: RunsThrough(Get(body, "messages"), items)
    ensures MessagesOf(body).Some? ==> RunsThrough(Get(body, "messages"), MessagesOf(body).value)
  {
    Runs(Get(body, "tools"));
    Runs(Get(body, "messages"));
  }

  lemma Runs(found: Option<Value>)
    ensures Iterated(found).Some? <==> exists items :: RunsThrough(found, items)
    ensures Iterated(found).Some? ==> RunsThrough(found, Iterated(found).value)
  {
    if Iterated(found).Some? {
      assert RunsThrough(found, Iterated(found).value);
    } else {
      assert found.Some? && !found.value.Arr? && !found.value.Str? && !found.value.Obj?;
    }
  }

  /** What comes of a body: refused by its sorted keys where it's a table without a model and messages, refused
      without where it's no table; raised on where a tool, a message or a block of the system's can't be reduced;
      and otherwise four parts, each in its place. */
  lemma OutcomesAre(body: Value)
    ensures OutcomeOf(body).NotARequest? <==>
              !(body.Obj? && (Get(body, "model").Some? || Get(body, "messages").Some?))
    ensures OutcomeOf(body).NotARequest? ==>
              if body.Obj? then
                && OutcomeOf(body).keys.Some? && multiset(OutcomeOf(body).keys.value) == multiset(Keys(body))
                && Order.IsSorted(OutcomeOf(body).keys.value, Order.Before)
              else OutcomeOf(body).keys.None?
    ensures OutcomeOf(body).Reduced? <==>
              && !OutcomeOf(body).NotARequest?
              && ToolsOf(body).Some? && (forall t | t in ToolsOf(body).value :: IsNamed(t))
              && MessagesOf(body).Some? && (forall m | m in MessagesOf(body).value :: IsMessage(m))
              && match Get(body, "system") { case Some(Arr(items)) => forall b | b in items :: IsBlock(b) case _ => true }
    ensures OutcomeOf(body).Reduced? ==>
              var tools, messages := ToolsOf(body).value, MessagesOf(body).value;
              var masks := Masks(tools);
              OutcomeOf(body).skeleton ==
                Obj([("parameters", Obj(ParametersOf(body, SortedKeys(Keys(body))))),
                     ("system", match Get(body, "system")
                                case Some(Str(text)) => Arr([BlockOf(Str(text), masks)])
                                case Some(Arr(items)) => Arr(BlocksOf(items, masks))
                                case _ => Null),
                     ("tools", Arr(ToolSkeletonsOf(tools, masks))),
                     ("messages", Arr(MessageSkeletonsOf(messages, masks)))])
  {
    hide SortedKeys, IsBlock, IsNamed, IsMessage, ToolsOf, MessagesOf, ParametersOf, BlockOf, BlocksOf, Masks;
    hide ToolSkeletonsOf, MessageSkeletonsOf;
    if body.Obj? {
      KeysAreSorted(Keys(body));
    }
  }
}
