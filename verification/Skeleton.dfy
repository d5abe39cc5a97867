/** Reducing a Messages API request to its skeleton: names masked by position, texts replaced by sizes. */
module Skeleton {
  import opened Text
  import opened Json
  import Order

  // ----- sizes -----

  /** Bytes of a character in UTF-8. */
  function CharBytes(c: char): nat {
    var n := c as int;
    if n < 0x80 then 1 else if n < 0x800 then 2 else if n < 0x10000 then 3 else 4
  }

  function Utf8(s: string): nat {
    if s == [] then 0 else CharBytes(s[0]) + Utf8(s[1..])
  }

  /** Characters `json.dumps` writes for one: printable ASCII as it is, the short escapes, a `\u` escape, or
      two of them. */
  function CharEscaped(c: char): nat {
    var n := c as int;
    if c in "\"\\\n\r\t" || n == 8 || n == 12 then 2
    else if 32 <= n < 127 then 1
    else if n < 0x10000 then 6
    else 12
  }

  function Escaped(s: string): nat {
    if s == [] then 0 else CharEscaped(s[0]) + Escaped(s[1..])
  }

  /** How many parts an array or a table has, each with a label as long and a value. */
  function Width(v: Value): nat {
    if v.Arr? then |v.items| else if v.Obj? then |v.entries| else 0
  }

  function Part(v: Value, i: nat): (part: Value)
    requires i < Width(v)
    ensures part < v
  {
    if v.Arr? then v.items[i] else v.entries[i].1
  }

  function LabelSize(v: Value, i: nat): nat
    requires i < Width(v)
  {
    if v.Arr? then 0 else 2 + Escaped(v.entries[i].0) + 2
  }

  /** The length of `json.dumps`. */
  function Dumped(v: Value): nat
    decreases v, Width(v) + 1
  {
    match v
    case Null => 4
    case Bool(b) => if b then 4 else 5
    case Number(written) => |written|
    case Str(text) => 2 + Escaped(text)
    case Arr(_) => 2 + PartsDumped(v, Width(v))
    case Obj(_) => 2 + PartsDumped(v, Width(v))
  }

  /** The first `n` parts, with `, ` between them. */
  function PartsDumped(v: Value, n: nat): nat
    requires n <= Width(v)
    decreases v, n
  {
    if n == 0 then 0
    else PartsDumped(v, n - 1) + (if n == 1 then 0 else 2) + LabelSize(v, n - 1) + Dumped(Part(v, n - 1))
  }

  function Size(v: Value): nat {
    if v.Str? then Utf8(v.text) else Dumped(v)
  }

  // ----- names -----

  const MCP := "mcp__"

  /** `MCP_PREFIX.sub("", name)`: what follows `mcp__<server>__`, where the server's parts are joined by
      single underscores. */
  function Strip(name: string): string {
    if MCP <= name then
      var rest := name[|MCP|..];
      var at := Find(rest, "__");
      if at.Some? && at.value > 0 && rest[0] != '_' then rest[at.value + 2..] else name
    else name
  }

  /** Runs without an underscore, joined by single ones. */
  predicate IsServer(server: string) {
    && server != ""
    && server[0] != '_'
    && server[|server| - 1] != '_'
    && forall i | 0 <= i < |server| - 1 :: !(server[i] == '_' && server[i + 1] == '_')
  }

  lemma PairAt(s: string, i: nat)
    ensures OccursAt(s, "__", i) <==> i + 2 <= |s| && s[i] == '_' && s[i + 1] == '_'
  {
    if i + 2 <= |s| {
      assert s[i..i + 2] == [s[i], s[i + 1]];
    }
  }

  /** A server's prefix is taken off whole, and nothing else ever is. */
  lemma StripTakesAServerOff(name: string, server: string, rest: string)
    ensures IsServer(server) ==> Strip("mcp__" + server + "__" + rest) == rest
    ensures Strip(name) != name ==>
              exists s :: IsServer(s) && name == "mcp__" + s + "__" + Strip(name)
  {
    if IsServer(server) {
      PrefixIsTakenOff(server, rest);
    }
    if Strip(name) != name {
      OnlyAPrefixIsTakenOff(name);
    }
  }

  lemma PrefixIsTakenOff(server: string, rest: string)
    requires IsServer(server)
    ensures Strip(MCP + server + "__" + rest) == rest
  {
    var name, body := MCP + server + "__" + rest, server + "__" + rest;
    assert name == MCP + body;
    Seam(MCP, body);
    forall j: nat | j < |server| ensures !OccursAt(body, "__", j) {
      PairAt(body, j);
      assert body[j] == server[j];
      assert j + 1 < |server| ==> body[j + 1] == server[j + 1];
    }
    PairAt(body, |server|);
    FindIs(body, "__", |server|);
    assert body[|server| + 2..] == rest;
  }

  lemma OnlyAPrefixIsTakenOff(name: string)
    requires Strip(name) != name
    ensures exists s :: IsServer(s) && name == MCP + s + "__" + Strip(name)
  {
    hide IsServer, Find;
    var rest := name[|MCP|..];
    var at := Find(rest, "__").value;
    BeforeTheFirstPair(rest, at);
    Apart(rest, at, "__");
    assert name == MCP + (rest[..at] + "__" + rest[at + 2..]);
    assert name == MCP + rest[..at] + "__" + Strip(name);
  }

  lemma Apart(s: string, at: nat, sub: string)
    requires OccursAt(s, sub, at)
    ensures s == s[..at] + sub + s[at + |sub|..]
  {}

  lemma BeforeTheFirstPair(rest: string, at: nat)
    requires Find(rest, "__") == Some(at) && at > 0 && rest[0] != '_'
    ensures IsServer(rest[..at])
  {
    PairAt(rest, at);
    forall j: nat | j < at ensures !(rest[j] == '_' && rest[j + 1] == '_') {
      PairAt(rest, j);
    }
    var last: nat := at - 1;
    assert rest[last + 1] == '_' && rest[last] != '_';
  }

  // ----- tables -----

  function GetOr(v: Value, key: string, default: Value): Value {
    match Get(v, key)
    case None => default
    case Some(value) => value
  }

  /** `d[key] = value`. */
  function Set(entries: seq<(string, Value)>, key: string, value: Value): seq<(string, Value)> {
    if forall e | e in entries :: e.0 != key then entries + [(key, value)]
    else
      seq(|entries|, i requires 0 <= i < |entries| => if entries[i].0 == key then (key, value) else entries[i])
  }

  /** A key that isn't there yet goes last. */
  lemma SetNew(entries: seq<(string, Value)>, key: string, value: Value)
    requires forall i | 0 <= i < |entries| :: entries[i].0 != key
    ensures Set(entries, key, value) == entries + [(key, value)]
  {}

  function Keys(v: Value): seq<string>
    requires v.Obj?
  {
    seq(|v.entries|, i requires 0 <= i < |v.entries| => v.entries[i].0)
  }

  /** `sorted`. */
  function SortedKeys(keys: seq<string>): (sorted: seq<string>)
    ensures multiset(sorted) == multiset(keys)
    ensures forall k | k in sorted :: k in keys
  {
    Order.TextsAreOrdered();
    Order.SortedHolds(keys, Order.Before);
    assert forall k | k in keys :: k in multiset(keys);
    var sorted := Order.Sorted(keys, Order.Before);
    assert forall k | k in sorted :: k in multiset(sorted);
    sorted
  }

  /** However the keys were ordered. */
  lemma SortedAlike(a: seq<string>, b: seq<string>)
    requires multiset(a) == multiset(b)
    ensures SortedKeys(a) == SortedKeys(b)
  {
    Order.TextsAreOrdered();
    Order.SortedHolds(a, Order.Before);
    Order.SortedHolds(b, Order.Before);
    Order.SortedIsUnique(SortedKeys(a), SortedKeys(b), Order.Before);
  }

  // ----- masks -----

  function NameOf(v: Value): Value { GetOr(v, "name", Str("")) }

  predicate IsNamed(v: Value) { v.Obj? && NameOf(v).Str? }

  /** The name without a server's prefix; a missing one is empty. */
  function Stripped(v: Value): string
    requires IsNamed(v)
  {
    Strip(NameOf(v).text)
  }

  function MaskAt(i: nat): string { "T" + Show(i + 1) }

  /** Each stripped name's mask: the place of the first tool by it. */
  function Masks(tools: seq<Value>): map<string, string>
    requires forall t | t in tools :: IsNamed(t)
  {
    if tools == [] then map[]
    else
      var before, name := Masks(tools[..|tools| - 1]), Stripped(tools[|tools| - 1]);
      if name in before then before else before[name := MaskAt(|tools| - 1)]
  }

  function MaskOf(masks: map<string, string>, name: string): Value {
    Str(if name in masks then masks[name] else "T?")
  }

  // ----- blocks -----

  const NO_TEXT := Str("")

  function Sized(n: nat): Value { Number(Show(n)) }

  /** Python's truth of a JSON value. */
  predicate Truthy(v: Value) {
    match v
    case Null => false
    case Bool(b) => b
    case Number(written) => written !in ["0", "0.0", "-0.0"]
    case Str(text) => text != ""
    case Arr(items) => items != []
    case Obj(entries) => entries != []
  }

  function KindOf(block: Value): Value { GetOr(block, "type", Str("?")) }

  function ContentOf(v: Value): Value { GetOr(v, "content", NO_TEXT) }

  /** What can be reduced: anything else raises. */
  predicate IsBlock(block: Value) {
    || block.Str?
    || (&& block.Obj?
        && (KindOf(block) == Str("tool_use") ==> IsNamed(block))
        && (KindOf(block) == Str("tool_result") ==>
              var content := Get(block, "content");
              content.Some? && content.value.Arr? ==>
                forall i | 0 <= i < |content.value.items| :: IsBlock(content.value.items[i])))
  }

  /** `block["cache_control"]`, where it sits. */
  function Marked(skeleton: seq<(string, Value)>, block: Value): seq<(string, Value)> {
    match Get(block, "cache_control")
    case None => skeleton
    case Some(control) => Set(skeleton, "cache_control", control)
  }

  function InputKeys(input: Value): Value {
    if input.Obj? then Arr(seq(|input.entries|, i requires 0 <= i < |input.entries| => Str(input.entries[i].0)))
    else Str("?")
  }

  /** A block's skeleton: its type, what its kind keeps, and its marker. */
  function BlockOf(block: Value, masks: map<string, string>): Value
    requires IsBlock(block)
    decreases block, 1
  {
    if block.Str? then Obj([("type", Str("text")), ("bytes", Sized(Size(block)))])
    else Obj(Marked([("type", KindOf(block))] + Details(block, masks), block))
  }

  function Details(block: Value, masks: map<string, string>): seq<(string, Value)>
    requires IsBlock(block) && block.Obj?
    decreases block, 0
  {
    var kind := KindOf(block);
    if kind == Str("text") then
      [("bytes", Sized(Size(GetOr(block, "text", NO_TEXT))))]
    else if kind == Str("thinking") then
      [("bytes", Sized(Size(GetOr(block, "thinking", NO_TEXT)))),
       ("signature", Bool(Truthy(GetOr(block, "signature", Null))))]
    else if kind == Str("redacted_thinking") then
      [("bytes", Sized(Size(GetOr(block, "data", NO_TEXT))))]
    else if kind == Str("tool_use") then
      var input := GetOr(block, "input", Obj([]));
      [("name", MaskOf(masks, Stripped(block))), ("input_keys", InputKeys(input)), ("input_bytes", Sized(Size(input)))]
    else if kind == Str("tool_result") then
      var failed := ("is_error", Bool(Truthy(GetOr(block, "is_error", Bool(false)))));
      var content := Get(block, "content");
      if content.Some? && content.value.Arr? then
        [failed, ("content", Arr(seq(|content.value.items|, i requires 0 <= i < |content.value.items| =>
                                       BlockOf(content.value.items[i], masks))))]
      else
        [failed, ("bytes", Sized(Size(ContentOf(block))))]
    else
      [("bytes", Sized(Size(block)))]
  }

  function BlocksOf(blocks: seq<Value>, masks: map<string, string>): seq<Value>
    requires forall b | b in blocks :: IsBlock(b)
  {
    seq(|blocks|, i requires 0 <= i < |blocks| => BlockOf(blocks[i], masks))
  }

  /** Setting one key after another, for a block that holds no others; one whose name is no text raises. */
  method FieldsSkeleton(block: Value, masks: map<string, string>) returns (reduced: Option<seq<(string, Value)>>)
    requires block.Obj? && KindOf(block) != Str("tool_result")
    ensures reduced == if IsBlock(block) then Some([("type", KindOf(block))] + Details(block, masks)) else None
  {
    hide Size, Set, GetOr, Truthy, InputKeys, MaskOf, Stripped, Sized;
    var kind := KindOf(block);
    var skeleton := [("type", kind)];
    if kind == Str("text") {
      SetNew(skeleton, "bytes", Sized(Size(GetOr(block, "text", NO_TEXT))));
      skeleton := Set(skeleton, "bytes", Sized(Size(GetOr(block, "text", NO_TEXT))));
    } else if kind == Str("thinking") {
      SetNew(skeleton, "bytes", Sized(Size(GetOr(block, "thinking", NO_TEXT))));
      skeleton := Set(skeleton, "bytes", Sized(Size(GetOr(block, "thinking", NO_TEXT))));
      SetNew(skeleton, "signature", Bool(Truthy(GetOr(block, "signature", Null))));
      skeleton := Set(skeleton, "signature", Bool(Truthy(GetOr(block, "signature", Null))));
    } else if kind == Str("redacted_thinking") {
      SetNew(skeleton, "bytes", Sized(Size(GetOr(block, "data", NO_TEXT))));
      skeleton := Set(skeleton, "bytes", Sized(Size(GetOr(block, "data", NO_TEXT))));
    } else if kind == Str("tool_use") {
      var named := ToolUseSkeleton(block, masks);
      return named;
    } else {
      SetNew(skeleton, "bytes", Sized(Size(block)));
      skeleton := Set(skeleton, "bytes", Sized(Size(block)));
    }
    assert skeleton == [("type", kind)] + Details(block, masks);
    reduced := Some(skeleton);
  }

  method ToolUseSkeleton(block: Value, masks: map<string, string>) returns (reduced: Option<seq<(string, Value)>>)
    requires block.Obj? && KindOf(block) == Str("tool_use")
    ensures reduced == if IsBlock(block) then Some([("type", KindOf(block))] + Details(block, masks)) else None
  {
    hide Size, Set, GetOr, InputKeys, MaskOf, Stripped, Sized;
    if !IsNamed(block) {
      return None;
    }
    var skeleton := [("type", KindOf(block))];
    SetNew(skeleton, "name", MaskOf(masks, Stripped(block)));
    skeleton := Set(skeleton, "name", MaskOf(masks, Stripped(block)));
    var input := GetOr(block, "input", Obj([]));
    SetNew(skeleton, "input_keys", InputKeys(input));
    skeleton := Set(skeleton, "input_keys", InputKeys(input));
    SetNew(skeleton, "input_bytes", Sized(Size(input)));
    skeleton := Set(skeleton, "input_bytes", Sized(Size(input)));
    assert skeleton == [("type", KindOf(block))] + Details(block, masks);
    reduced := Some(skeleton);
  }

  /** A tool result's skeleton, once what its blocks reduce to is known, if it has a list of them. */
  method ResultSkeleton(block: Value, inner: Option<seq<Value>>, masks: map<string, string>)
    returns (skeleton: seq<(string, Value)>)
    requires block.Obj? && KindOf(block) == Str("tool_result") && IsBlock(block)
    requires var content := Get(block, "content");
             if content.Some? && content.value.Arr? then inner == Some(BlocksOf(content.value.items, masks))
             else inner == None
    ensures skeleton == [("type", KindOf(block))] + Details(block, masks)
  {
    hide Size, Set, GetOr, Truthy, Sized;
    skeleton := [("type", KindOf(block))];
    SetNew(skeleton, "is_error", Bool(Truthy(GetOr(block, "is_error", Bool(false)))));
    skeleton := Set(skeleton, "is_error", Bool(Truthy(GetOr(block, "is_error", Bool(false)))));
    if inner.Some? {
      SetNew(skeleton, "content", Arr(inner.value));
      skeleton := Set(skeleton, "content", Arr(inner.value));
    } else {
      SetNew(skeleton, "bytes", Sized(Size(ContentOf(block))));
      skeleton := Set(skeleton, "bytes", Sized(Size(ContentOf(block))));
    }
  }

  /** `block_skeleton`; nothing where it raises. */
  method BlockSkeleton(block: Value, masks: map<string, string>) returns (reduced: Option<Value>)
    ensures reduced == if IsBlock(block) then Some(BlockOf(block, masks)) else None
    decreases block
  {
    hide Size, Marked, GetOr, Truthy, Sized, Details, Stripped;
    if block.Str? {
      return Some(Obj([("type", Str("text")), ("bytes", Sized(Size(block)))]));
    }
    if !block.Obj? {
      return None;
    }
    var skeleton;
    if KindOf(block) == Str("tool_result") {
      var content := Get(block, "content");
      var inner: Option<seq<Value>> := None;
      if content.Some? && content.value.Arr? {
        var items, reducedItems: seq<Value> := content.value.items, [];
        for i := 0 to |items|
          invariant |reducedItems| == i
          invariant forall k | 0 <= k < i :: IsBlock(items[k]) && reducedItems[k] == BlockOf(items[k], masks)
        {
          var one := BlockSkeleton(items[i], masks);
          if one.None? {
            return None;
          }
          reducedItems := reducedItems + [one.value];
        }
        inner := Some(reducedItems);
        assert reducedItems == BlocksOf(items, masks);
      }
      skeleton := ResultSkeleton(block, inner, masks);
    } else {
      var fields := FieldsSkeleton(block, masks);
      if fields.None? {
        return None;
      }
      skeleton := fields.value;
    }
    reduced := Some(Obj(Marked(skeleton, block)));
  }

  // ----- the request -----

  /** What a loop over a value runs through: nothing for a missing one, the items, the characters or the
      keys; anything else raises. */
  function Iterated(v: Option<Value>): Option<seq<Value>> {
    match v
    case None => Some([])
    case Some(Arr(items)) => Some(items)
    case Some(Str(text)) => Some(seq(|text|, i requires 0 <= i < |text| => Str([text[i]])))
    case Some(Obj(entries)) => Some(seq(|entries|, i requires 0 <= i < |entries| => Str(entries[i].0)))
    case _ => None
  }

  function ToolsOf(body: Value): Option<seq<Value>> { Iterated(Get(body, "tools")) }

  function MessagesOf(body: Value): Option<seq<Value>> { Iterated(Get(body, "messages")) }

  predicate IsMessage(message: Value) {
    && message.Obj?
    && var content := ContentOf(message);
       if content.Arr? then forall b | b in content.items :: IsBlock(b) else IsBlock(content)
  }

  /** A body in which nothing raises. */
  predicate IsReducible(body: Value) {
    && body.Obj?
    && ToolsOf(body).Some? && (forall t | t in ToolsOf(body).value :: IsNamed(t))
    && MessagesOf(body).Some? && (forall m | m in MessagesOf(body).value :: IsMessage(m))
    && SystemReduces(Get(body, "system"))
  }

  predicate SystemReduces(system: Option<Value>) {
    system.Some? && system.value.Arr? ==> forall b | b in system.value.items :: IsBlock(b)
  }

  const APART := ["system", "tools", "messages"]

  const TOOL_KEYS := ["name", "description", "input_schema", "cache_control"]

  const MESSAGE_KEYS := ["role", "content"]

  /** A parameter's value; `metadata` as its keys alone. */
  function ParameterOf(body: Value, key: string): Value {
    var value := GetOr(body, key, Null);
    if key == "metadata" && value.Obj? then
      var keys := SortedKeys(Keys(value));
      Arr(seq(|keys|, i requires 0 <= i < |keys| => Str(keys[i])))
    else
      value
  }

  function ParametersOf(body: Value, keys: seq<string>): seq<(string, Value)> {
    if keys == [] then []
    else
      var before, key := ParametersOf(body, keys[..|keys| - 1]), keys[|keys| - 1];
      if key in APART then before else Set(before, key, ParameterOf(body, key))
  }

  /** The keys but those in `except`, carried over as they are. */
  function Carried(v: Value, keys: seq<string>, except: seq<string>, into: seq<(string, Value)>): seq<(string, Value)> {
    if keys == [] then into
    else
      var before, key := Carried(v, keys[..|keys| - 1], except, into), keys[|keys| - 1];
      if key in except then before else Set(before, key, GetOr(v, key, Null))
  }

  function SystemOf(body: Value, masks: map<string, string>): Value
    requires SystemReduces(Get(body, "system"))
  {
    match Get(body, "system")
    case Some(Str(text)) => Arr([BlockOf(Str(text), masks)])
    case Some(Arr(items)) => Arr(BlocksOf(items, masks))
    case _ => Null
  }

  function ToolStart(tool: Value, masks: map<string, string>): seq<(string, Value)>
    requires IsNamed(tool)
  {
    [("name", MaskOf(masks, Stripped(tool))),
     ("description_bytes", Sized(Size(GetOr(tool, "description", NO_TEXT)))),
     ("schema_bytes", Sized(Size(GetOr(tool, "input_schema", Obj([])))))]
  }

  function ToolOf(tool: Value, masks: map<string, string>): Value
    requires IsNamed(tool)
  {
    Obj(Marked(Carried(tool, SortedKeys(Keys(tool)), TOOL_KEYS, ToolStart(tool, masks)), tool))
  }

  /** A message's blocks; content that's no list is one block. */
  function MessageBlocks(message: Value, masks: map<string, string>): seq<Value>
    requires IsMessage(message)
  {
    var content := ContentOf(message);
    if content.Arr? then BlocksOf(content.items, masks) else [BlockOf(content, masks)]
  }

  function MessageStart(message: Value, masks: map<string, string>): seq<(string, Value)>
    requires IsMessage(message)
  {
    [("role", GetOr(message, "role", Str("?"))), ("content", Arr(MessageBlocks(message, masks)))]
  }

  function MessageOf(message: Value, masks: map<string, string>): Value
    requires IsMessage(message)
  {
    Obj(Carried(message, SortedKeys(Keys(message)), MESSAGE_KEYS, MessageStart(message, masks)))
  }

  function ReducedOf(body: Value): Value
    requires IsReducible(body)
  {
    var tools, messages := ToolsOf(body).value, MessagesOf(body).value;
    var masks := Masks(tools);
    Obj([("parameters", Obj(ParametersOf(body, SortedKeys(Keys(body))))),
         ("system", SystemOf(body, masks)),
         ("tools", Arr(ToolSkeletonsOf(tools, masks))),
         ("messages", Arr(MessageSkeletonsOf(messages, masks)))])
  }

  /** A mapping with neither a model nor messages is refused with its keys, what is no mapping without; a part
      of another shape than the code expects raises. */
  datatype Outcome =
    | NotARequest(keys: Option<seq<string>>)
    | Raised
    | Reduced(skeleton: Value)

  predicate IsRequest(body: Value) {
    body.Obj? && (Get(body, "model").Some? || Get(body, "messages").Some?)
  }

  function OutcomeOf(body: Value): Outcome {
    if !IsRequest(body) then NotARequest(if body.Obj? then Some(SortedKeys(Keys(body))) else None)
    else if !IsReducible(body) then Raised
    else Reduced(ReducedOf(body))
  }

  method CarryInto(v: Value, except: seq<string>, start: seq<(string, Value)>) returns (skeleton: seq<(string, Value)>)
    requires v.Obj?
    ensures skeleton == Carried(v, SortedKeys(Keys(v)), except, start)
  {
    hide SortedKeys, Set, GetOr;
    var keys := SortedKeys(Keys(v));
    skeleton := start;
    for i := 0 to |keys|
      invariant skeleton == Carried(v, keys[..i], except, start)
    {
      assert keys[..i + 1][..i] == keys[..i];
      if keys[i] !in except {
        skeleton := Set(skeleton, keys[i], GetOr(v, keys[i], Null));
      }
    }
    assert keys[..|keys|] == keys;
  }

  /** `setdefault` for each tool in turn; nothing when one's name is no text. */
  method MaskTools(tools: seq<Value>) returns (masks: Option<map<string, string>>)
    ensures masks == if forall t | t in tools :: IsNamed(t) then Some(Masks(tools)) else None
  {
    hide Stripped, MaskAt, IsNamed;
    var found: map<string, string> := map[];
    for index := 0 to |tools|
      invariant forall t | t in tools[..index] :: IsNamed(t)
      invariant found == Masks(tools[..index])
    {
      assert tools[..index + 1][..index] == tools[..index];
      if !IsNamed(tools[index]) {
        return None;
      }
      var name := Stripped(tools[index]);
      if name !in found {
        found := found[name := MaskAt(index)];
      }
    }
    assert tools[..|tools|] == tools;
    masks := Some(found);
  }

  method Parameters(body: Value) returns (parameters: seq<(string, Value)>)
    requires body.Obj?
    ensures parameters == ParametersOf(body, SortedKeys(Keys(body)))
  {
    hide SortedKeys, Set, ParameterOf;
    var keys := SortedKeys(Keys(body));
    parameters := [];
    for i := 0 to |keys|
      invariant parameters == ParametersOf(body, keys[..i])
    {
      assert keys[..i + 1][..i] == keys[..i];
      if keys[i] in APART {
        continue;
      }
      parameters := Set(parameters, keys[i], ParameterOf(body, keys[i]));
    }
    assert keys[..|keys|] == keys;
  }

  method Blocks(blocks: seq<Value>, masks: map<string, string>) returns (reduced: Option<seq<Value>>)
    ensures reduced == if forall b | b in blocks :: IsBlock(b) then Some(BlocksOf(blocks, masks)) else None
  {
    hide IsBlock, BlockOf;
    var found: seq<Value> := [];
    for i := 0 to |blocks|
      invariant |found| == i
      invariant forall k | 0 <= k < i :: IsBlock(blocks[k]) && found[k] == BlockOf(blocks[k], masks)
    {
      var one := BlockSkeleton(blocks[i], masks);
      if one.None? {
        assert blocks[i] in blocks;
        return None;
      }
      found := found + [one.value];
    }
    assert forall b | b in blocks :: IsBlock(b);
    assert found == BlocksOf(blocks, masks);
    reduced := Some(found);
  }

  method MessageSkeleton(message: Value, masks: map<string, string>) returns (entry: Option<Value>)
    ensures entry == if IsMessage(message) then Some(MessageOf(message, masks)) else None
  {
    hide IsBlock, BlockOf, BlocksOf, Carried, SortedKeys;
    if !message.Obj? {
      return None;
    }
    var content := ContentOf(message);
    var blocks;
    if content.Arr? {
      var found := Blocks(content.items, masks);
      if found.None? {
        return None;
      }
      blocks := found.value;
    } else {
      var one := BlockSkeleton(content, masks);
      if one.None? {
        return None;
      }
      blocks := [one.value];
    }
    var carried := CarryInto(message, MESSAGE_KEYS, [("role", GetOr(message, "role", Str("?"))), ("content", Arr(blocks))]);
    entry := Some(Obj(carried));
  }

  function MessageSkeletonsOf(messages: seq<Value>, masks: map<string, string>): seq<Value>
    requires forall m | m in messages :: IsMessage(m)
  {
    seq(|messages|, i requires 0 <= i < |messages| => MessageOf(messages[i], masks))
  }

  method MessageSkeletons(messages: seq<Value>, masks: map<string, string>) returns (reduced: Option<seq<Value>>)
    ensures reduced == if forall m | m in messages :: IsMessage(m) then Some(MessageSkeletonsOf(messages, masks)) else None
  {
    hide IsMessage, MessageOf;
    var found: seq<Value> := [];
    for i := 0 to |messages|
      invariant |found| == i
      invariant forall k | 0 <= k < i :: IsMessage(messages[k]) && found[k] == MessageOf(messages[k], masks)
    {
      var one := MessageSkeleton(messages[i], masks);
      if one.None? {
        assert messages[i] in messages;
        return None;
      }
      found := found + [one.value];
    }
    assert forall m | m in messages :: IsMessage(m);
    assert found == MessageSkeletonsOf(messages, masks);
    reduced := Some(found);
  }

  function ToolSkeletonsOf(tools: seq<Value>, masks: map<string, string>): seq<Value>
    requires forall t | t in tools :: IsNamed(t)
  {
    seq(|tools|, i requires 0 <= i < |tools| => ToolOf(tools[i], masks))
  }

  /** By now every tool's name was read once. */
  method ToolSkeletons(tools: seq<Value>, masks: map<string, string>) returns (reduced: seq<Value>)
    requires forall t | t in tools :: IsNamed(t)
    ensures reduced == ToolSkeletonsOf(tools, masks)
  {
    hide ToolStart, Carried, SortedKeys, Marked;
    reduced := [];
    for i := 0 to |tools|
      invariant |reduced| == i && forall k | 0 <= k < i :: reduced[k] == ToolOf(tools[k], masks)
    {
      var skeleton := CarryInto(tools[i], TOOL_KEYS, ToolStart(tools[i], masks));
      reduced := reduced + [Obj(Marked(skeleton, tools[i]))];
    }
  }

  method SystemSkeleton(body: Value, masks: map<string, string>) returns (system: Option<Value>)
    ensures system == if SystemReduces(Get(body, "system")) then Some(SystemOf(body, masks)) else None
  {
    hide BlockOf, BlocksOf;
    match Get(body, "system") {
      case Some(Str(text)) =>
        var one := BlockSkeleton(Str(text), masks);
        system := Some(Arr([one.value]));
      case Some(Arr(items)) =>
        hide IsBlock;
        var blocks := Blocks(items, masks);
        system := if blocks.Some? then Some(Arr(blocks.value)) else None;
      case _ =>
        system := Some(Null);
    }
  }

  /** `skeleton_of`: part by part, in the source's order, raising at the first that can't be reduced. */
  method SkeletonOf(body: Value) returns (outcome: Outcome)
    ensures outcome == OutcomeOf(body)
  {
    hide SortedKeys, IsBlock, SystemOf, Masks, ParametersOf, IsMessage, IsNamed, MessageSkeletonsOf, ToolSkeletonsOf;
    hide SystemReduces;
    if !IsRequest(body) {
      return NotARequest(if body.Obj? then Some(SortedKeys(Keys(body))) else None);
    }
    var tools := ToolsOf(body);
    if tools.None? {
      return Raised;
    }
    var masks := MaskTools(tools.value);
    if masks.None? {
      return Raised;
    }
    var parameters := Parameters(body);
    var system := SystemSkeleton(body, masks.value);
    if system.None? {
      return Raised;
    }
    var toolsSkeleton := ToolSkeletons(tools.value, masks.value);
    var messages := MessagesOf(body);
    if messages.None? {
      return Raised;
    }
    var messagesSkeleton := MessageSkeletons(messages.value, masks.value);
    if messagesSkeleton.None? {
      return Raised;
    }
    outcome := Reduced(Obj([("parameters", Obj(parameters)), ("system", system.value), ("tools", Arr(toolsSkeleton)),
                            ("messages", Arr(messagesSkeleton.value))]));
  }
}
