/** What a skeleton is blind to: the texts but for their sizes, and the tools' names but for which are the
    same. */
module SkeletonEdits {
  import opened Text
  import opened Json
  import opened Skeleton

  // ----- sizes -----

  predicate SameLabels(x: Value, y: Value) {
    && ((x.Arr? && y.Arr?) || (x.Obj? && y.Obj?))
    && Width(x) == Width(y)
    && (x.Obj? ==> forall i | 0 <= i < |x.entries| :: x.entries[i].0 == y.entries[i].0)
  }

  /** The same but for its texts, each written at the same length. */
  predicate SameShape(x: Value, y: Value) {
    if x.Str? && y.Str? then Escaped(x.text) == Escaped(y.text)
    else x == y || (SameLabels(x, y) && forall i | 0 <= i < Width(x) :: SameShape(Part(x, i), Part(y, i)))
  }

  lemma {:induction false} SameShapeSameSize(x: Value, y: Value)
    requires SameShape(x, y)
    ensures Dumped(x) == Dumped(y)
    decreases x, 1, 0
  {
    if !x.Str? && x != y {
      SamePartsSameSize(x, y, Width(x));
    }
  }

  lemma {:induction false} SamePartsSameSize(x: Value, y: Value, n: nat)
    requires SameLabels(x, y) && (forall i | 0 <= i < Width(x) :: SameShape(Part(x, i), Part(y, i))) && n <= Width(x)
    ensures PartsDumped(x, n) == PartsDumped(y, n)
    decreases x, 0, n
  {
    if n > 0 {
      SamePartsSameSize(x, y, n - 1);
      SameShapeSameSize(Part(x, n - 1), Part(y, n - 1));
    }
  }

  /** The text at a path of places, if there's one. */
  function TextAt(v: Value, path: seq<nat>): Option<string>
    decreases |path|
  {
    if path == [] then (if v.Str? then Some(v.text) else None)
    else if path[0] < Width(v) then TextAt(Part(v, path[0]), path[1..])
    else None
  }

  function WithPart(v: Value, i: nat, part: Value): (w: Value)
    requires i < Width(v)
    ensures SameLabels(v, w)
    ensures forall k | 0 <= k < Width(v) :: Part(w, k) == if k == i then part else Part(v, k)
  {
    if v.Arr? then Arr(v.items[i := part]) else Obj(v.entries[i := (v.entries[i].0, part)])
  }

  /** Another text in its place. */
  function WithTextAt(v: Value, path: seq<nat>, text: string): Value
    requires TextAt(v, path).Some?
    decreases |path|
  {
    if path == [] then Str(text)
    else WithPart(v, path[0], WithTextAt(Part(v, path[0]), path[1..], text))
  }

  lemma {:induction false} OnePart(v: Value, i: nat, part: Value, n: nat)
    requires i < Width(v) && n <= Width(v)
    ensures PartsDumped(WithPart(v, i, part), n) ==
              PartsDumped(v, n) + if i < n then Dumped(part) - Dumped(Part(v, i)) else 0
  {
    hide Dumped;
    if n > 0 {
      OnePart(v, i, part, n - 1);
    }
  }

  /** Replacing a text anywhere in a value changes its size by as much as the text's own written length. */
  lemma {:induction false} SizeFollowsTheText(v: Value, path: seq<nat>, text: string)
    requires TextAt(v, path).Some?
    ensures Dumped(WithTextAt(v, path, text)) - Dumped(v) == Escaped(text) - Escaped(TextAt(v, path).value)
    decreases |path|
  {
    if path != [] {
      var i := path[0];
      var part := WithTextAt(Part(v, i), path[1..], text);
      SizeFollowsTheText(Part(v, i), path[1..], text);
      OnePart(v, i, part, Width(v));
    }
  }

  lemma SizedTellsApart(m: nat, n: nat)
    ensures Sized(m) == Sized(n) <==> m == n
  {
    ReadShow(m);
    ReadShow(n);
  }

  lemma MarkedTellsApart(a: seq<(string, Value)>, b: seq<(string, Value)>, x: Value, y: Value)
    requires Get(x, "cache_control") == Get(y, "cache_control")
    requires (forall e | e in a :: e.0 != "cache_control") && forall e | e in b :: e.0 != "cache_control"
    ensures Marked(a, x) == Marked(b, y) <==> a == b
  {
    match Get(x, "cache_control")
    case None =>
    case Some(control) =>
      assert Marked(a, x) == a + [("cache_control", control)] && Marked(b, y) == b + [("cache_control", control)];
      Seam(a, [("cache_control", control)]);
      Seam(b, [("cache_control", control)]);
      assert Marked(a, x) == Marked(b, y) ==> |a| == |b|;
  }

  /** Two bytes each, yet one is written with six characters. */
  lemma BytesAreNotEnough()
    ensures Utf8("\U{00E9}") == Utf8("ab") && Escaped("\U{00E9}") != Escaped("ab")
  {
    assert "ab"[1..] == "b";
  }

  predicate IsPlain(c: char) { ' ' <= c <= '~' && c != '"' && c != '\\' }

  /** Printable ASCII without a quote or a backslash is written as it is. */
  lemma {:induction false} PlainTextIsWrittenAsItIs(s: string)
    requires forall i | 0 <= i < |s| :: IsPlain(s[i])
    ensures Escaped(s) == Utf8(s) == |s|
  {
    if s != [] {
      assert IsPlain(s[0]);
      PlainTextIsWrittenAsItIs(s[1..]);
    }
  }

  // ----- masks -----

  /** Renamed tools: each stripped name and what it becomes, no two the same. */
  predicate IsRenaming(renamed: map<string, string>) {
    forall m, n | m in renamed && n in renamed && m != n :: renamed[m] != renamed[n]
  }

  predicate NameAlike(x: Value, y: Value, renamed: map<string, string>) {
    && (IsNamed(x) <==> IsNamed(y))
    && (IsNamed(x) ==> Stripped(x) in renamed && Stripped(y) == renamed[Stripped(x)])
  }

  /** Names that stay as they are. */
  function Unchanged(names: set<string>): (same: map<string, string>)
    ensures IsRenaming(same)
  {
    map n | n in names :: n
  }

  /** A server's prefix put before a name that carries none is no renaming. */
  lemma PrefixingKeepsTheName(x: Value, y: Value, server: string, names: set<string>)
    requires IsServer(server) && IsNamed(x) && IsNamed(y)
    requires Strip(NameOf(x).text) == NameOf(x).text && NameOf(x).text in names
    requires NameOf(y).text == MCP + server + "__" + NameOf(x).text
    ensures NameAlike(x, y, Unchanged(names))
  {
    StripTakesAServerOff(NameOf(x).text, server, NameOf(x).text);
  }

  predicate MasksAlike(a: map<string, string>, b: map<string, string>, renamed: map<string, string>) {
    forall n | n in renamed :: (n in a <==> renamed[n] in b) && (n in a ==> a[n] == b[renamed[n]])
  }

  lemma {:induction false} MasksFollowTheNames(a: seq<Value>, b: seq<Value>, renamed: map<string, string>)
    requires IsRenaming(renamed) && |a| == |b|
    requires (forall t | t in a :: IsNamed(t)) && (forall t | t in b :: IsNamed(t))
    requires forall i | 0 <= i < |a| :: NameAlike(a[i], b[i], renamed)
    ensures MasksAlike(Masks(a), Masks(b), renamed)
  {
    hide IsNamed, Stripped;
    if a != [] {
      MasksFollowTheNames(a[..|a| - 1], b[..|b| - 1], renamed);
    }
  }

  /** A tool's mask is the place of the first by its name. */
  lemma {:induction false} MaskIsAPlace(tools: seq<Value>, i: nat) returns (first: nat)
    requires (forall t | t in tools :: IsNamed(t)) && i < |tools|
    ensures first <= i && Stripped(tools[first]) == Stripped(tools[i])
    ensures forall k | 0 <= k < first :: Stripped(tools[k]) != Stripped(tools[i])
    ensures Stripped(tools[i]) in Masks(tools) && Masks(tools)[Stripped(tools[i])] == MaskAt(first)
  {
    hide IsNamed, Stripped, MaskAt;
    var last, name := |tools| - 1, Stripped(tools[i]);
    var init := tools[..last];
    if k: nat :| k < last && Stripped(tools[k]) == name {
      assert init[k] == tools[k];
      first := MaskIsAPlace(init, k);
      assert forall j | 0 <= j < first :: init[j] == tools[j];
    } else {
      first := last;
      NotMasked(init, name);
    }
  }

  lemma {:induction false} NotMasked(tools: seq<Value>, name: string)
    requires (forall t | t in tools :: IsNamed(t)) && forall k | 0 <= k < |tools| :: Stripped(tools[k]) != name
    ensures name !in Masks(tools)
  {
    hide IsNamed, Stripped;
    if tools != [] {
      NotMasked(tools[..|tools| - 1], name);
    }
  }

  lemma MaskAtTellsApart(i: nat, j: nat)
    ensures MaskAt(i) == MaskAt(j) <==> i == j
  {
    ReadShow(i + 1);
    ReadShow(j + 1);
    Seam("T", Show(i + 1));
    Seam("T", Show(j + 1));
  }

  /** Two tools share a mask exactly when they share a name. */
  lemma MasksTellNamesApart(tools: seq<Value>, i: nat, j: nat)
    requires (forall t | t in tools :: IsNamed(t)) && i < |tools| && j < |tools|
    ensures MaskOf(Masks(tools), Stripped(tools[i])) == MaskOf(Masks(tools), Stripped(tools[j])) <==>
              Stripped(tools[i]) == Stripped(tools[j])
  {
    hide IsNamed, Stripped, MaskAt, Masks;
    var p := MaskIsAPlace(tools, i);
    var q := MaskIsAPlace(tools, j);
    MaskAtTellsApart(p, q);
  }

  predicate SameMasks(a: seq<Value>, b: seq<Value>)
    requires |a| == |b| && (forall t | t in a :: IsNamed(t)) && (forall t | t in b :: IsNamed(t))
  {
    forall i | 0 <= i < |a| :: MaskOf(Masks(a), Stripped(a[i])) == MaskOf(Masks(b), Stripped(b[i]))
  }

  predicate SamePattern(a: seq<Value>, b: seq<Value>)
    requires |a| == |b| && (forall t | t in a :: IsNamed(t)) && (forall t | t in b :: IsNamed(t))
  {
    forall i, j | 0 <= i < |a| && 0 <= j < |a| ::
      Stripped(a[i]) == Stripped(a[j]) <==> Stripped(b[i]) == Stripped(b[j])
  }

  /** Two lists of tools are masked alike exactly when the same places share names. */
  lemma MasksShowThePattern(a: seq<Value>, b: seq<Value>)
    requires |a| == |b| && (forall t | t in a :: IsNamed(t)) && (forall t | t in b :: IsNamed(t))
    ensures SameMasks(a, b) <==> SamePattern(a, b)
  {
    hide IsNamed, Stripped, MaskAt, Masks, MaskOf;
    if SameMasks(a, b) {
      forall i, j | 0 <= i < |a| && 0 <= j < |a|
        ensures Stripped(a[i]) == Stripped(a[j]) <==> Stripped(b[i]) == Stripped(b[j]) {
        MasksTellNamesApart(a, i, j);
        MasksTellNamesApart(b, i, j);
      }
    }
    if SamePattern(a, b) {
      forall i | 0 <= i < |a| ensures MaskOf(Masks(a), Stripped(a[i])) == MaskOf(Masks(b), Stripped(b[i])) {
        SamePlace(a, b, i);
      }
    }
  }

  lemma SamePlace(a: seq<Value>, b: seq<Value>, i: nat)
    requires |a| == |b| && (forall t | t in a :: IsNamed(t)) && (forall t | t in b :: IsNamed(t))
    requires SamePattern(a, b) && i < |a|
    ensures MaskOf(Masks(a), Stripped(a[i])) == MaskOf(Masks(b), Stripped(b[i]))
  {
    hide IsNamed, Stripped, MaskAt, Masks;
    var p := MaskIsAPlace(a, i);
    var q := MaskIsAPlace(b, i);
    assert Stripped(b[p]) == Stripped(b[i]) && Stripped(a[q]) == Stripped(a[i]);
  }

  // ----- blocks -----

  /** Another text of as many bytes; or, of something else, of the same shape. */
  predicate SameSized(x: Value, y: Value) {
    if x.Str? && y.Str? then Utf8(x.text) == Utf8(y.text)
    else !x.Str? && !y.Str? && SameShape(x, y)
  }

  predicate FieldSized(x: Value, y: Value, key: string, default: Value) {
    SameSized(GetOr(x, key, default), GetOr(y, key, default))
  }

  /** An input of the same keys and size. */
  predicate InputAlike(x: Value, y: Value) {
    InputKeys(x) == InputKeys(y) && SameSized(x, y)
  }

  /** A block edited: its texts replaced by others of as many bytes, through nested tool results; its tool
      renamed; what the skeleton passes over changed at will. */
  predicate EditedBlock(x: Value, y: Value, renamed: map<string, string>) {
    if !(x.Obj? && y.Obj?) then x.Str? && y.Str? && Utf8(x.text) == Utf8(y.text)
    else
      && KindOf(x) == KindOf(y)
      && Get(x, "cache_control") == Get(y, "cache_control")
      && EditedFields(x, y, renamed)
      && (KindOf(x) == Str("tool_result") ==>
            var a, b := Get(x, "content"), Get(y, "content");
            if a.Some? && a.value.Arr? && b.Some? && b.value.Arr? then
              && |a.value.items| == |b.value.items|
              && forall i | 0 <= i < |a.value.items| :: EditedBlock(a.value.items[i], b.value.items[i], renamed)
            else !ContentOf(x).Arr? && !ContentOf(y).Arr? && SameSized(ContentOf(x), ContentOf(y)))
  }

  predicate EditedFields(x: Value, y: Value, renamed: map<string, string>)
    requires KindOf(x) == KindOf(y)
  {
    var kind := KindOf(x);
    if kind == Str("text") then FieldSized(x, y, "text", NO_TEXT)
    else if kind == Str("thinking") then
      && FieldSized(x, y, "thinking", NO_TEXT)
      && (Truthy(GetOr(x, "signature", Null)) <==> Truthy(GetOr(y, "signature", Null)))
    else if kind == Str("redacted_thinking") then FieldSized(x, y, "data", NO_TEXT)
    else if kind == Str("tool_use") then
      && NameAlike(x, y, renamed)
      && InputAlike(GetOr(x, "input", Obj([])), GetOr(y, "input", Obj([])))
    else if kind == Str("tool_result") then
      Truthy(GetOr(x, "is_error", Bool(false))) <==> Truthy(GetOr(y, "is_error", Bool(false)))
    else SameShape(x, y)
  }

  lemma SameSizedSameSize(x: Value, y: Value)
    requires SameSized(x, y)
    ensures Size(x) == Size(y)
  {
    if !x.Str? {
      SameShapeSameSize(x, y);
    }
  }

  lemma {:induction false} EditedBlocksBothReduce(x: Value, y: Value, renamed: map<string, string>)
    requires EditedBlock(x, y, renamed)
    ensures IsBlock(x) <==> IsBlock(y)
    decreases x
  {
    hide Utf8, SameShape, SameSized, InputAlike, Stripped, Truthy, IsNamed;
    if x.Obj? && y.Obj? && KindOf(x) == Str("tool_result") {
      var a, b := Get(x, "content"), Get(y, "content");
      if a.Some? && a.value.Arr? && b.Some? && b.value.Arr? {
        forall i | 0 <= i < |a.value.items| ensures IsBlock(a.value.items[i]) <==> IsBlock(b.value.items[i]) {
          EditedBlocksBothReduce(a.value.items[i], b.value.items[i], renamed);
        }
      }
    }
  }

  /** What's kept of a block that isn't a tool result with a list of blocks. */
  lemma EditedFieldsKeep(x: Value, y: Value, ma: map<string, string>, mb: map<string, string>,
                         renamed: map<string, string>)
    requires x.Obj? && y.Obj? && EditedBlock(x, y, renamed) && IsBlock(x) && IsBlock(y) && MasksAlike(ma, mb, renamed)
    requires KindOf(x) == Str("tool_result") ==> !ContentOf(x).Arr?
    ensures Details(x, ma) == Details(y, mb)
  {
    hide Size, SameShape, SameSized, Stripped, Truthy, Utf8, Sized, IsBlock, InputKeys, EditedBlock, Get;
    var kind := KindOf(x);
    assert EditedFields(x, y, renamed) by { EditedMeans(x, y, renamed); }
    if kind == Str("text") {
      SameSizedSameSize(GetOr(x, "text", NO_TEXT), GetOr(y, "text", NO_TEXT));
    } else if kind == Str("thinking") {
      SameSizedSameSize(GetOr(x, "thinking", NO_TEXT), GetOr(y, "thinking", NO_TEXT));
    } else if kind == Str("redacted_thinking") {
      SameSizedSameSize(GetOr(x, "data", NO_TEXT), GetOr(y, "data", NO_TEXT));
    } else if kind == Str("tool_use") {
      ToolIsNamed(x);
      ToolIsNamed(y);
      SameSizedSameSize(GetOr(x, "input", Obj([])), GetOr(y, "input", Obj([])));
    } else if kind == Str("tool_result") {
      EditedMeans(x, y, renamed);
      SameSizedSameSize(ContentOf(x), ContentOf(y));
    } else {
      EditedMeans(x, y, renamed);
      SameSizedSameSize(x, y);
    }
  }

  lemma ToolIsNamed(x: Value)
    requires x.Obj? && IsBlock(x) && KindOf(x) == Str("tool_use")
    ensures IsNamed(x)
  {}

  lemma ListedResult(x: Value, masks: map<string, string>, items: seq<Value>)
    requires x.Obj? && IsBlock(x) && KindOf(x) == Str("tool_result") && Get(x, "content") == Some(Arr(items))
    ensures forall b | b in items :: IsBlock(b)
    ensures Details(x, masks) == [("is_error", Bool(Truthy(GetOr(x, "is_error", Bool(false))))),
                                  ("content", Arr(BlocksOf(items, masks)))]
  {
    hide Size, Truthy, Stripped;
  }

  lemma EditedMeans(x: Value, y: Value, renamed: map<string, string>)
    requires x.Obj? && y.Obj? && EditedBlock(x, y, renamed)
    ensures KindOf(x) == KindOf(y) && EditedFields(x, y, renamed)
    ensures KindOf(x) == Str("tool_result") && !ContentOf(x).Arr? ==>
              !ContentOf(y).Arr? && SameSized(ContentOf(x), ContentOf(y))
    ensures KindOf(x) !in [Str("text"), Str("thinking"), Str("redacted_thinking"), Str("tool_use"), Str("tool_result")] ==>
              SameSized(x, y)
  {
    hide SameShape, Truthy, NameAlike, InputAlike, Utf8;
  }

  /** An edited block reduces to the same skeleton. */
  lemma {:induction false} EditedBlockKeeps(x: Value, y: Value, ma: map<string, string>, mb: map<string, string>,
                                            renamed: map<string, string>)
    requires EditedBlock(x, y, renamed) && IsBlock(x) && IsBlock(y) && MasksAlike(ma, mb, renamed)
    ensures BlockOf(x, ma) == BlockOf(y, mb)
    decreases x
  {
    if x.Obj? && y.Obj? {
      EditedMeans(x, y, renamed);
      if KindOf(x) == Str("tool_result") && ContentOf(x).Arr? {
        var a, b := EditedItems(x, y, renamed);
        ListedResult(x, ma, a);
        ListedResult(y, mb, b);
        forall i | 0 <= i < |a| ensures BlockOf(a[i], ma) == BlockOf(b[i], mb) {
          EditedBlockKeeps(a[i], b[i], ma, mb, renamed);
        }
        assert BlocksOf(a, ma) == BlocksOf(b, mb);
      } else {
        EditedFieldsKeep(x, y, ma, mb, renamed);
      }
      FromDetails(x, y, ma, mb, renamed);
    }
  }

  lemma EditedItems(x: Value, y: Value, renamed: map<string, string>) returns (a: seq<Value>, b: seq<Value>)
    requires x.Obj? && y.Obj? && EditedBlock(x, y, renamed) && KindOf(x) == Str("tool_result") && ContentOf(x).Arr?
    ensures Get(x, "content") == Some(Arr(a)) && Get(y, "content") == Some(Arr(b)) && |a| == |b|
    ensures forall i | 0 <= i < |a| :: a[i] < x && EditedBlock(a[i], b[i], renamed)
    ensures Truthy(GetOr(x, "is_error", Bool(false))) <==> Truthy(GetOr(y, "is_error", Bool(false)))
  {
    hide SameShape, SameSized, InputAlike, NameAlike, Truthy, Utf8;
    a, b := Get(x, "content").value.items, Get(y, "content").value.items;
  }

  lemma FromDetails(x: Value, y: Value, ma: map<string, string>, mb: map<string, string>, renamed: map<string, string>)
    requires x.Obj? && y.Obj? && IsBlock(x) && IsBlock(y) && EditedBlock(x, y, renamed)
    requires Details(x, ma) == Details(y, mb)
    ensures BlockOf(x, ma) == BlockOf(y, mb)
  {
    hide Details, EditedFields, IsBlock;
  }

  // ----- the request -----

  predicate SameKeys(x: Value, y: Value)
    requires x.Obj? && y.Obj?
  {
    multiset(Keys(x)) == multiset(Keys(y))
  }

  /** Each key's value is as it was, but for those in `except`. */
  ghost predicate SameBut(x: Value, y: Value, except: seq<string>) {
    forall key | key !in except :: Get(x, key) == Get(y, key)
  }

  /** A tool renamed, its description and schema replaced by others of the same size, its keys in any
      order. */
  ghost predicate EditedTool(x: Value, y: Value, renamed: map<string, string>) {
    if !(x.Obj? && y.Obj?) then x == y && !x.Obj?
    else
      && SameKeys(x, y)
      && NameAlike(x, y, renamed)
      && FieldSized(x, y, "description", NO_TEXT)
      && FieldSized(x, y, "input_schema", Obj([]))
      && SameBut(x, y, ["name", "description", "input_schema"])
  }

  predicate EditedContent(x: Value, y: Value, renamed: map<string, string>) {
    if x.Arr? && y.Arr? then
      && |x.items| == |y.items|
      && forall i | 0 <= i < |x.items| :: EditedBlock(x.items[i], y.items[i], renamed)
    else !x.Arr? && !y.Arr? && EditedBlock(x, y, renamed)
  }

  ghost predicate EditedMessage(x: Value, y: Value, renamed: map<string, string>) {
    if !(x.Obj? && y.Obj?) then x == y && !x.Obj?
    else
      && SameKeys(x, y)
      && EditedContent(ContentOf(x), ContentOf(y), renamed)
      && SameBut(x, y, ["content"])
  }

  ghost predicate EditedAll(a: Option<seq<Value>>, b: Option<seq<Value>>, edited: (Value, Value) -> bool) {
    if a.None? || b.None? then a == b
    else |a.value| == |b.value| && forall i | 0 <= i < |a.value| :: edited(a.value[i], b.value[i])
  }

  predicate EditedSystem(x: Option<Value>, y: Option<Value>, renamed: map<string, string>) {
    if x.Some? && y.Some? && x.value.Arr? && y.value.Arr? then EditedContent(x.value, y.value, renamed)
    else if x.Some? && y.Some? && x.value.Str? && y.value.Str? then Utf8(x.value.text) == Utf8(y.value.text)
    else x == y && (x.Some? ==> !x.value.Arr?)
  }

  /** An id replaced by another: `metadata` has the same keys. */
  predicate EditedIds(x: Option<Value>, y: Option<Value>) {
    x == y || (x.Some? && y.Some? && x.value.Obj? && y.value.Obj? && SameKeys(x.value, y.value))
  }

  /** A request edited: tools renamed consistently wherever they're named, every text and description
      replaced by another of as many bytes, ids replaced, keys in any order. */
  ghost predicate EditedBody(a: Value, b: Value, renamed: map<string, string>) {
    if !(a.Obj? && b.Obj?) then !a.Obj? && !b.Obj?
    else
      && SameKeys(a, b)
      && EditedAll(ToolsOf(a), ToolsOf(b), (x, y) => EditedTool(x, y, renamed))
      && EditedAll(MessagesOf(a), MessagesOf(b), (x, y) => EditedMessage(x, y, renamed))
      && EditedSystem(Get(a, "system"), Get(b, "system"), renamed)
      && EditedIds(Get(a, "metadata"), Get(b, "metadata"))
      && SameBut(a, b, APART + ["metadata"])
  }

  lemma {:induction false} CarriedAlike(x: Value, y: Value, keys: seq<string>, except: seq<string>,
                                        start: seq<(string, Value)>)
    requires SameBut(x, y, except)
    ensures Carried(x, keys, except, start) == Carried(y, keys, except, start)
  {
    hide Set;
    if keys != [] {
      CarriedAlike(x, y, keys[..|keys| - 1], except, start);
    }
  }

  lemma {:induction false} ParametersAlike(a: Value, b: Value, keys: seq<string>)
    requires SameBut(a, b, APART + ["metadata"]) && EditedIds(Get(a, "metadata"), Get(b, "metadata"))
    ensures ParametersOf(a, keys) == ParametersOf(b, keys)
  {
    hide Set, SortedKeys;
    if keys != [] {
      var key := keys[|keys| - 1];
      ParametersAlike(a, b, keys[..|keys| - 1]);
      if key == "metadata" {
        IdsAlike(a, b);
      } else if key !in APART {
        assert Get(a, key) == Get(b, key);
      }
    }
  }

  lemma IdsAlike(a: Value, b: Value)
    requires EditedIds(Get(a, "metadata"), Get(b, "metadata"))
    ensures ParameterOf(a, "metadata") == ParameterOf(b, "metadata")
  {
    hide SortedKeys;
    var x, y := Get(a, "metadata"), Get(b, "metadata");
    if x.Some? && y.Some? && x.value.Obj? && y.value.Obj? && SameKeys(x.value, y.value) {
      SortedAlike(Keys(x.value), Keys(y.value));
    }
  }

  lemma EditedToolKeeps(
      x: Value, y: Value, ma: map<string, string>, mb: map<string, string>, renamed: map<string, string>)
    requires EditedTool(x, y, renamed) && IsNamed(x) && IsNamed(y) && MasksAlike(ma, mb, renamed)
    ensures ToolOf(x, ma) == ToolOf(y, mb)
  {
    hide SortedKeys, Size, SameSized, SameBut, Stripped, Carried;
    SortedAlike(Keys(x), Keys(y));
    SameSizedSameSize(GetOr(x, "description", NO_TEXT), GetOr(y, "description", NO_TEXT));
    SameSizedSameSize(GetOr(x, "input_schema", Obj([])), GetOr(y, "input_schema", Obj([])));
    Excepting(x, y, ["name", "description", "input_schema"], TOOL_KEYS, "cache_control");
    CarriedAlike(x, y, SortedKeys(Keys(x)), TOOL_KEYS, ToolStart(x, ma));
  }

  lemma Excepting(x: Value, y: Value, except: seq<string>, more: seq<string>, key: string)
    requires SameBut(x, y, except) && (forall k | k in except :: k in more) && key !in except
    ensures SameBut(x, y, more) && Get(x, key) == Get(y, key)
  {}

  lemma {:induction false} EditedBlocksKeep(a: seq<Value>, b: seq<Value>, ma: map<string, string>, mb: map<string, string>,
                                            renamed: map<string, string>)
    requires |a| == |b| && forall i | 0 <= i < |a| :: EditedBlock(a[i], b[i], renamed)
    requires MasksAlike(ma, mb, renamed)
    ensures (forall x | x in a :: IsBlock(x)) <==> (forall y | y in b :: IsBlock(y))
    ensures (forall x | x in a :: IsBlock(x)) ==> BlocksOf(a, ma) == BlocksOf(b, mb)
  {
    hide EditedBlock, IsBlock, BlockOf, MasksAlike;
    forall i | 0 <= i < |a| ensures IsBlock(a[i]) <==> IsBlock(b[i]) {
      EditedBlocksBothReduce(a[i], b[i], renamed);
    }
    forall i | 0 <= i < |a| && IsBlock(a[i]) ensures IsBlock(b[i]) && BlockOf(a[i], ma) == BlockOf(b[i], mb) {
      EditedBlockKeeps(a[i], b[i], ma, mb, renamed);
    }
    assert (forall x | x in a :: IsBlock(x)) <==> forall i | 0 <= i < |a| :: IsBlock(a[i]);
    assert (forall y | y in b :: IsBlock(y)) <==> forall i | 0 <= i < |b| :: IsBlock(b[i]);
  }

  lemma EditedMessageKeeps(x: Value, y: Value, ma: map<string, string>, mb: map<string, string>,
                           renamed: map<string, string>)
    requires EditedMessage(x, y, renamed) && MasksAlike(ma, mb, renamed)
    ensures IsMessage(x) <==> IsMessage(y)
    ensures IsMessage(x) ==> MessageOf(x, ma) == MessageOf(y, mb)
  {
    hide SortedKeys, EditedBlock, IsBlock, BlockOf, MasksAlike, SameBut, Carried, BlocksOf;
    if x.Obj? && y.Obj? {
      var a, b := ContentOf(x), ContentOf(y);
      if a.Arr? {
        EditedBlocksKeep(a.items, b.items, ma, mb, renamed);
      } else {
        EditedBlocksBothReduce(a, b, renamed);
        if IsBlock(a) {
          EditedBlockKeeps(a, b, ma, mb, renamed);
        }
      }
      SortedAlike(Keys(x), Keys(y));
      Excepting(x, y, ["content"], MESSAGE_KEYS, "role");
      if IsMessage(x) {
        CarriedAlike(x, y, SortedKeys(Keys(x)), MESSAGE_KEYS, MessageStart(x, ma));
      }
    }
  }

  lemma EditedToolsKeep(a: seq<Value>, b: seq<Value>, renamed: map<string, string>)
    requires |a| == |b| && IsRenaming(renamed)
    requires forall i | 0 <= i < |a| :: EditedTool(a[i], b[i], renamed)
    ensures (forall t | t in a :: IsNamed(t)) <==> (forall t | t in b :: IsNamed(t))
    ensures (forall t | t in a :: IsNamed(t)) ==>
              && MasksAlike(Masks(a), Masks(b), renamed)
              && ToolSkeletonsOf(a, Masks(a)) == ToolSkeletonsOf(b, Masks(b))
  {
    hide IsNamed, ToolOf, Masks, MasksAlike, EditedTool, NameAlike;
    forall i | 0 <= i < |a|
      ensures (IsNamed(a[i]) <==> IsNamed(b[i])) && (IsNamed(a[i]) ==> NameAlike(a[i], b[i], renamed))
    {
      ToolNames(a[i], b[i], renamed);
    }
    assert (forall t | t in a :: IsNamed(t)) <==> forall i | 0 <= i < |a| :: IsNamed(a[i]);
    assert (forall t | t in b :: IsNamed(t)) <==> forall i | 0 <= i < |b| :: IsNamed(b[i]);
    if forall t | t in a :: IsNamed(t) {
      MasksFollowTheNames(a, b, renamed);
      forall i | 0 <= i < |a| ensures ToolOf(a[i], Masks(a)) == ToolOf(b[i], Masks(b)) {
        EditedToolKeeps(a[i], b[i], Masks(a), Masks(b), renamed);
      }
    }
  }

  lemma ToolNames(x: Value, y: Value, renamed: map<string, string>)
    requires EditedTool(x, y, renamed)
    ensures IsNamed(x) <==> IsNamed(y)
    ensures IsNamed(x) ==> NameAlike(x, y, renamed)
  {
    hide SameBut, SameSized, Stripped, SameKeys;
  }

  lemma EditedMessagesKeep(a: seq<Value>, b: seq<Value>, ma: map<string, string>, mb: map<string, string>,
                           renamed: map<string, string>)
    requires |a| == |b| && MasksAlike(ma, mb, renamed)
    requires forall i | 0 <= i < |a| :: EditedMessage(a[i], b[i], renamed)
    ensures (forall m | m in a :: IsMessage(m)) <==> (forall m | m in b :: IsMessage(m))
    ensures (forall m | m in a :: IsMessage(m)) ==> MessageSkeletonsOf(a, ma) == MessageSkeletonsOf(b, mb)
  {
    hide IsMessage, MessageOf, MasksAlike, EditedMessage;
    forall i | 0 <= i < |a|
      ensures (IsMessage(a[i]) <==> IsMessage(b[i])) && (IsMessage(a[i]) ==> MessageOf(a[i], ma) == MessageOf(b[i], mb)) {
      EditedMessageKeeps(a[i], b[i], ma, mb, renamed);
    }
    assert (forall m | m in a :: IsMessage(m)) <==> forall i | 0 <= i < |a| :: IsMessage(a[i]);
    assert (forall m | m in b :: IsMessage(m)) <==> forall i | 0 <= i < |b| :: IsMessage(b[i]);
  }

  lemma EditedSystemKeeps(
      a: Value, b: Value, ma: map<string, string>, mb: map<string, string>, renamed: map<string, string>)
    requires EditedSystem(Get(a, "system"), Get(b, "system"), renamed) && MasksAlike(ma, mb, renamed)
    ensures SystemReduces(Get(a, "system")) <==> SystemReduces(Get(b, "system"))
    ensures SystemReduces(Get(a, "system")) && SystemReduces(Get(b, "system")) ==> SystemOf(a, ma) == SystemOf(b, mb)
  {
    hide BlocksOf, EditedBlock, MasksAlike, IsBlock, Utf8, Get, ToolsOf, MessagesOf;
    var x, y := Get(a, "system"), Get(b, "system");
    if x.Some? && y.Some? && x.value.Arr? && y.value.Arr? {
      EditedBlocksKeep(x.value.items, y.value.items, ma, mb, renamed);
    }
  }

  lemma SameRequest(a: Value, b: Value, renamed: map<string, string>)
    requires EditedBody(a, b, renamed)
    ensures IsRequest(a) <==> IsRequest(b)
    ensures a.Obj? ==> b.Obj? && SortedKeys(Keys(a)) == SortedKeys(Keys(b))
  {
    hide SortedKeys, EditedAll, EditedSystem, EditedIds, SameBut;
    if a.Obj? {
      SortedAlike(Keys(a), Keys(b));
      forall key ensures Get(a, key).Some? <==> Get(b, key).Some? {
        KeyIsThere(a, key);
        KeyIsThere(b, key);
        assert key in multiset(Keys(a)) <==> key in multiset(Keys(b));
      }
    }
  }

  lemma KeyIsThere(v: Value, key: string)
    requires v.Obj?
    ensures Get(v, key).Some? <==> key in Keys(v)
  {
    if e :| e in v.entries && e.0 == key {
      var i :| 0 <= i < |v.entries| && v.entries[i] == e;
      assert Keys(v)[i] == key;
    }
    if key in Keys(v) {
      var i :| 0 <= i < |v.entries| && Keys(v)[i] == key;
      assert v.entries[i] in v.entries && v.entries[i].0 == key;
    }
  }

  /** An edited request has the same skeleton; and what's refused, or raises, still is or does. */
  lemma EditsKeepTheSkeleton(a: Value, b: Value, renamed: map<string, string>)
    requires IsRenaming(renamed) && EditedBody(a, b, renamed)
    ensures OutcomeOf(a) == OutcomeOf(b)
  {
    hide SortedKeys, EditedTool, EditedMessage, EditedSystem, EditedIds, SameBut, ToolsOf, MessagesOf, IsMessage, IsNamed;
    hide ToolSkeletonsOf, MessageSkeletonsOf, SystemOf, ParametersOf, IsBlock, Masks;
    SameRequest(a, b, renamed);
    if a.Obj? && b.Obj? && ToolsOf(a).Some? && MessagesOf(a).Some? {
      var ta, tb, msa, msb := ToolsOf(a).value, ToolsOf(b).value, MessagesOf(a).value, MessagesOf(b).value;
      EditedToolsKeep(ta, tb, renamed);
      if forall t | t in ta :: IsNamed(t) {
        EditedMessagesKeep(msa, msb, Masks(ta), Masks(tb), renamed);
        EditedSystemKeeps(a, b, Masks(ta), Masks(tb), renamed);
        ParametersAlike(a, b, SortedKeys(Keys(a)));
      }
    }
  }
}
