/** What a skeleton still shows: the kinds, the sizes, the flags, the markers and which tools are the same. */
module SkeletonShows {
  import opened Text
  import opened Json
  import opened Skeleton
  import opened SkeletonEdits

  // ----- blocks -----

  /** A text on its own and a mapping that holds it and no marker are reduced alike. */
  predicate IsTextOf(block: Value, n: nat)
    requires block.Obj?
  {
    && KindOf(block) == Str("text") && Get(block, "cache_control") == None
    && Size(GetOr(block, "text", NO_TEXT)) == n
  }

  /** What two blocks have in common when they're reduced alike. */
  predicate ReadsAlike(x: Value, y: Value, ma: map<string, string>, mb: map<string, string>)
    requires IsBlock(x) && IsBlock(y)
    decreases x, 1
  {
    if x.Str? then if y.Str? then Size(x) == Size(y) else IsTextOf(y, Size(x))
    else if y.Str? then IsTextOf(x, Size(y))
    else KeysReadAlike(x, y, ma, mb)
  }

  /** Of two mappings: one kind, one marker, and the same sizes, flags, masks and keys; and the blocks of a tool's
      result read alike, pair by pair. */
  predicate KeysReadAlike(x: Value, y: Value, ma: map<string, string>, mb: map<string, string>)
    requires x.Obj? && y.Obj? && IsBlock(x) && IsBlock(y)
    decreases x, 0
  {
    var kind := KindOf(x);
    && KindOf(y) == kind
    && Get(x, "cache_control") == Get(y, "cache_control")
    && (kind == Str("text") ==> Size(GetOr(x, "text", NO_TEXT)) == Size(GetOr(y, "text", NO_TEXT)))
    && (kind == Str("thinking") ==>
          && Size(GetOr(x, "thinking", NO_TEXT)) == Size(GetOr(y, "thinking", NO_TEXT))
          && (Truthy(GetOr(x, "signature", Null)) <==> Truthy(GetOr(y, "signature", Null))))
    && (kind == Str("redacted_thinking") ==> Size(GetOr(x, "data", NO_TEXT)) == Size(GetOr(y, "data", NO_TEXT)))
    && (kind == Str("tool_use") ==>
          var a, b := GetOr(x, "input", Obj([])), GetOr(y, "input", Obj([]));
          && MaskOf(ma, Stripped(x)) == MaskOf(mb, Stripped(y))
          && InputKeys(a) == InputKeys(b) && Size(a) == Size(b))
    && (kind == Str("tool_result") ==>
          && (Truthy(GetOr(x, "is_error", Bool(false))) <==> Truthy(GetOr(y, "is_error", Bool(false))))
          && var a, b := Get(x, "content"), Get(y, "content");
             if a.Some? && a.value.Arr? then
               && b.Some? && b.value.Arr? && |a.value.items| == |b.value.items|
               && forall i | 0 <= i < |a.value.items| :: ReadsAlike(a.value.items[i], b.value.items[i], ma, mb)
             else
               !(b.Some? && b.value.Arr?) && Size(ContentOf(x)) == Size(ContentOf(y)))
    && (kind !in KINDS ==> Size(x) == Size(y))
  }

  const KINDS := [Str("text"), Str("thinking"), Str("redacted_thinking"), Str("tool_use"), Str("tool_result")]

  lemma ListsOfOne<T>(p: T, q: T)
    ensures [p] == [q] <==> p == q
  {
    assert [p] == [q] ==> [p][0] == [q][0];
  }

  lemma ListsOfTwo<T>(p: T, q: T, p': T, q': T)
    ensures [p, p'] == [q, q'] <==> p == q && p' == q'
  {
    assert [p, p'] == [q, q'] ==> [p, p'][0] == [q, q'][0] && [p, p'][1] == [q, q'][1];
  }

  lemma ListsOfThree<T>(p: T, q: T, p': T, q': T, p'': T, q'': T)
    ensures [p, p', p''] == [q, q', q''] <==> p == q && p' == q' && p'' == q''
  {
    var a, b := [p, p', p''], [q, q', q''];
    assert a == b ==> a[0] == b[0] && a[1] == b[1] && a[2] == b[2];
  }

  /** Of two mappings of one kind the same is kept exactly when they read alike. */
  lemma {:induction false} DetailsShow(x: Value, y: Value, ma: map<string, string>, mb: map<string, string>)
    requires x.Obj? && y.Obj? && IsBlock(x) && IsBlock(y)
    requires KindOf(x) == KindOf(y) && Get(x, "cache_control") == Get(y, "cache_control")
    ensures Details(x, ma) == Details(y, mb) <==> KeysReadAlike(x, y, ma, mb)
    decreases x, 1
  {
    hide Details, KeysReadAlike;
    var kind := KindOf(x);
    if kind == Str("tool_result") {
      ResultsShow(x, y, ma, mb);
    } else if kind == Str("tool_use") {
      ToolUsesShow(x, y, ma, mb);
    } else {
      SizesShow(x, y, ma, mb);
    }
  }

  lemma SizesShow(x: Value, y: Value, ma: map<string, string>, mb: map<string, string>)
    requires x.Obj? && y.Obj? && IsBlock(x) && IsBlock(y)
    requires KindOf(x) == KindOf(y) && KindOf(x) != Str("tool_use") && KindOf(x) != Str("tool_result")
    requires Get(x, "cache_control") == Get(y, "cache_control")
    ensures Details(x, ma) == Details(y, mb) <==> KeysReadAlike(x, y, ma, mb)
  {
    hide Size, Sized, Truthy, GetOr, IsBlock, BlocksOf;
    var kind := KindOf(x);
    if kind == Str("thinking") {
      var m, n := Size(GetOr(x, "thinking", NO_TEXT)), Size(GetOr(y, "thinking", NO_TEXT));
      SizedTellsApart(m, n);
      ListsOfTwo(("bytes", Sized(m)), ("bytes", Sized(n)), ("signature", Bool(Truthy(GetOr(x, "signature", Null)))),
                 ("signature", Bool(Truthy(GetOr(y, "signature", Null)))));
    } else {
      var key := if kind == Str("text") then "text" else "data";
      var known := kind in KINDS;
      var m := Size(if known then GetOr(x, key, NO_TEXT) else x);
      var n := Size(if known then GetOr(y, key, NO_TEXT) else y);
      SizedTellsApart(m, n);
      ListsOfOne(("bytes", Sized(m)), ("bytes", Sized(n)));
    }
  }

  lemma ToolUsesShow(x: Value, y: Value, ma: map<string, string>, mb: map<string, string>)
    requires x.Obj? && y.Obj? && IsBlock(x) && IsBlock(y) && KindOf(x) == KindOf(y) == Str("tool_use")
    requires Get(x, "cache_control") == Get(y, "cache_control")
    ensures Details(x, ma) == Details(y, mb) <==> KeysReadAlike(x, y, ma, mb)
  {
    hide Size, Sized, Truthy, Stripped, MaskOf, InputKeys;
    var a, b := GetOr(x, "input", Obj([])), GetOr(y, "input", Obj([]));
    SizedTellsApart(Size(a), Size(b));
    ListsOfThree(("name", MaskOf(ma, Stripped(x))), ("name", MaskOf(mb, Stripped(y))),
                 ("input_keys", InputKeys(a)), ("input_keys", InputKeys(b)),
                 ("input_bytes", Sized(Size(a))), ("input_bytes", Sized(Size(b))));
  }

  lemma {:induction false} ResultsShow(x: Value, y: Value, ma: map<string, string>, mb: map<string, string>)
    requires x.Obj? && y.Obj? && IsBlock(x) && IsBlock(y) && KindOf(x) == KindOf(y) == Str("tool_result")
    requires Get(x, "cache_control") == Get(y, "cache_control")
    ensures Details(x, ma) == Details(y, mb) <==> KeysReadAlike(x, y, ma, mb)
    decreases x, 0
  {
    hide Size, Sized, Truthy, BlocksOf, BlockOf, ReadsAlike, Details;
    var p, q := ("is_error", Bool(Truthy(GetOr(x, "is_error", Bool(false))))),
                ("is_error", Bool(Truthy(GetOr(y, "is_error", Bool(false)))));
    var a := ResultTail(x, ma);
    var b := ResultTail(y, mb);
    ListsOfTwo(p, q, a, b);
    SizedTellsApart(Size(ContentOf(x)), Size(ContentOf(y)));
    if ContentOf(x).Arr? && ContentOf(y).Arr? && |ContentOf(x).items| == |ContentOf(y).items| {
      var s, t := Get(x, "content").value.items, Get(y, "content").value.items;
      forall i | 0 <= i < |s| ensures BlockOf(s[i], ma) == BlockOf(t[i], mb) <==> ReadsAlike(s[i], t[i], ma, mb) {
        BlocksShow(s[i], t[i], ma, mb);
      }
      PairByPair(s, t, ma, mb);
    } else if ContentOf(x).Arr? && ContentOf(y).Arr? {
      NotAsMany(ContentOf(x).items, ContentOf(y).items, ma, mb);
    }
  }

  /** As many blocks, alike pair by pair. */
  predicate AllReadAlike(a: seq<Value>, b: seq<Value>, ma: map<string, string>, mb: map<string, string>)
    requires (forall v | v in a :: IsBlock(v)) && (forall v | v in b :: IsBlock(v))
  {
    |a| == |b| && forall i | 0 <= i < |a| :: ReadsAlike(a[i], b[i], ma, mb)
  }

  lemma PairByPair(a: seq<Value>, b: seq<Value>, ma: map<string, string>, mb: map<string, string>)
    requires (forall v | v in a :: IsBlock(v)) && (forall v | v in b :: IsBlock(v)) && |a| == |b|
    requires forall i | 0 <= i < |a| :: BlockOf(a[i], ma) == BlockOf(b[i], mb) <==> ReadsAlike(a[i], b[i], ma, mb)
    ensures BlocksOf(a, ma) == BlocksOf(b, mb) <==> forall i | 0 <= i < |a| :: ReadsAlike(a[i], b[i], ma, mb)
  {
    hide BlockOf, ReadsAlike, IsBlock;
    var s, t := BlocksOf(a, ma), BlocksOf(b, mb);
    assert forall i | 0 <= i < |a| :: s[i] == BlockOf(a[i], ma) && t[i] == BlockOf(b[i], mb);
  }

  lemma NotAsMany(a: seq<Value>, b: seq<Value>, ma: map<string, string>, mb: map<string, string>)
    requires (forall v | v in a :: IsBlock(v)) && (forall v | v in b :: IsBlock(v)) && |a| != |b|
    ensures BlocksOf(a, ma) != BlocksOf(b, mb)
  {
    assert |BlocksOf(a, ma)| == |a| && |BlocksOf(b, mb)| == |b|;
  }

  /** Two lists of blocks reduce alike exactly when they read alike. */
  lemma ListsShow(a: seq<Value>, b: seq<Value>, ma: map<string, string>, mb: map<string, string>)
    requires (forall v | v in a :: IsBlock(v)) && (forall v | v in b :: IsBlock(v))
    ensures BlocksOf(a, ma) == BlocksOf(b, mb) <==> AllReadAlike(a, b, ma, mb)
  {
    hide BlockOf, ReadsAlike, IsBlock, BlocksOf;
    if |a| == |b| {
      forall i | 0 <= i < |a| ensures BlockOf(a[i], ma) == BlockOf(b[i], mb) <==> ReadsAlike(a[i], b[i], ma, mb) {
        BlocksShow(a[i], b[i], ma, mb);
      }
      PairByPair(a, b, ma, mb);
    } else {
      NotAsMany(a, b, ma, mb);
    }
  }

  /** What a tool result's content comes to. */
  lemma ResultTail(x: Value, masks: map<string, string>) returns (tail: (string, Value))
    requires x.Obj? && IsBlock(x) && KindOf(x) == Str("tool_result")
    ensures Details(x, masks) == [("is_error", Bool(Truthy(GetOr(x, "is_error", Bool(false))))), tail]
    ensures ContentOf(x).Arr? ==> (forall b | b in ContentOf(x).items :: IsBlock(b))
                                  && tail == ("content", Arr(BlocksOf(ContentOf(x).items, masks)))
    ensures !ContentOf(x).Arr? ==> tail == ("bytes", Sized(Size(ContentOf(x))))
  {
    hide Size, Sized, Truthy;
    var content := ContentOf(x);
    if content.Arr? {
      ListedResult(x, masks, content.items);
      tail := ("content", Arr(BlocksOf(content.items, masks)));
    } else {
      tail := ("bytes", Sized(Size(content)));
    }
  }

  lemma MarkedShows(a: seq<(string, Value)>, b: seq<(string, Value)>, x: Value, y: Value)
    requires |a| == |b|
    requires (forall e | e in a :: e.0 != "cache_control") && forall e | e in b :: e.0 != "cache_control"
    ensures Marked(a, x) == Marked(b, y) <==> a == b && Get(x, "cache_control") == Get(y, "cache_control")
  {
    var c, d := Get(x, "cache_control"), Get(y, "cache_control");
    if c == d {
      MarkedTellsApart(a, b, x, y);
    } else if c.Some? && d.Some? {
      var p, q := ("cache_control", c.value), ("cache_control", d.value);
      assert Marked(a, x) == a + [p] && Marked(b, y) == b + [q];
      assert (a + [p])[|a|] == p && (b + [q])[|b|] == q;
    } else {
      assert |Marked(a, x)| == |a| + (if c.Some? then 1 else 0) && |Marked(b, y)| == |b| + (if d.Some? then 1 else 0);
    }
  }

  lemma DetailsHoldNoMarker(x: Value, y: Value, ma: map<string, string>, mb: map<string, string>)
    requires x.Obj? && y.Obj? && IsBlock(x) && IsBlock(y) && KindOf(x) == KindOf(y)
    ensures |Details(x, ma)| == |Details(y, mb)|
    ensures forall e | e in Details(x, ma) :: e.0 != "cache_control"
  {
    hide Size, Sized, Truthy, Stripped, MaskOf, InputKeys, BlockOf;
  }

  /** Two blocks have the same skeleton exactly when they read alike: of one kind and marked alike, with
      the same sizes, flags, masks, keys and, pair by pair, nested blocks that read alike. */
  lemma {:induction false} BlocksShow(x: Value, y: Value, ma: map<string, string>, mb: map<string, string>)
    requires IsBlock(x) && IsBlock(y)
    ensures BlockOf(x, ma) == BlockOf(y, mb) <==> ReadsAlike(x, y, ma, mb)
    decreases x, 3
  {
    hide Details, Marked, Size, Sized, IsTextOf, KeysReadAlike;
    if x.Obj? && y.Obj? {
      MappingsShow(x, y, ma, mb);
    } else if x.Obj? {
      TextShows(x, y, ma, mb);
    } else if y.Obj? {
      TextShows(y, x, mb, ma);
    } else {
      SizedTellsApart(Size(x), Size(y));
      ListsOfTwo(("type", Str("text")), ("type", Str("text")), ("bytes", Sized(Size(x))), ("bytes", Sized(Size(y))));
    }
  }

  lemma TextShows(x: Value, y: Value, ma: map<string, string>, mb: map<string, string>)
    requires IsBlock(x) && IsBlock(y) && x.Obj? && y.Str?
    ensures BlockOf(x, ma) == BlockOf(y, mb) <==> IsTextOf(x, Size(y))
  {
    hide Size, Sized, GetOr, IsBlock, Marked;
    var kept := [("type", KindOf(x))] + Details(x, ma);
    KindComesFirst(kept, x);
    if KindOf(x) == Str("text") {
      var n := Size(GetOr(x, "text", NO_TEXT));
      TextIsMarked(x, n);
      SizedTellsApart(n, Size(y));
      assert kept == [("type", Str("text")), ("bytes", Sized(n))];
      ListsOfTwo(("type", Str("text")), ("type", Str("text")), ("bytes", Sized(n)), ("bytes", Sized(Size(y))));
    } else {
      assert Marked(kept, x)[0] != ("type", Str("text"));
    }
  }

  lemma TextIsMarked(x: Value, n: nat)
    ensures var kept := [("type", Str("text")), ("bytes", Sized(n))];
            if Get(x, "cache_control") == None then Marked(kept, x) == kept else |Marked(kept, x)| == 3
  {
    hide Sized;
  }

  lemma MappingsShow(x: Value, y: Value, ma: map<string, string>, mb: map<string, string>)
    requires x.Obj? && y.Obj? && IsBlock(x) && IsBlock(y)
    ensures BlockOf(x, ma) == BlockOf(y, mb) <==> KeysReadAlike(x, y, ma, mb)
    decreases x, 2
  {
    hide Details, Marked, IsBlock;
    var a, b := [("type", KindOf(x))] + Details(x, ma), [("type", KindOf(y))] + Details(y, mb);
    Seam([("type", KindOf(x))], Details(x, ma));
    Seam([("type", KindOf(y))], Details(y, mb));
    if KindOf(x) == KindOf(y) {
      DetailsHoldNoMarker(x, y, ma, mb);
      DetailsHoldNoMarker(y, x, mb, ma);
      MarkedShows(a, b, x, y);
      if Get(x, "cache_control") == Get(y, "cache_control") {
        DetailsShow(x, y, ma, mb);
      }
    } else {
      KindComesFirst(a, x);
      KindComesFirst(b, y);
      assert a[0] != b[0];
    }
  }

  lemma KindComesFirst(a: seq<(string, Value)>, x: Value)
    requires a != [] && a[0].0 == "type"
    ensures Marked(a, x) != [] && Marked(a, x)[0] == a[0]
  {}

  /** A text replaced inside a tool's input leaves the skeleton as it was exactly when it's written at the
      same length: as many bytes isn't enough. */
  lemma InputTextsCountAsWritten(x: Value, y: Value, input: Value, path: seq<nat>, text: string,
                                 masks: map<string, string>)
    requires x.Obj? && y.Obj? && KindOf(x) == KindOf(y) == Str("tool_use")
    requires IsNamed(x) && IsNamed(y) && Stripped(x) == Stripped(y)
    requires Get(x, "cache_control") == Get(y, "cache_control")
    requires path != [] && TextAt(input, path).Some?
    requires Get(x, "input") == Some(input) && Get(y, "input") == Some(WithTextAt(input, path, text))
    ensures BlockOf(x, masks) == BlockOf(y, masks) <==> Escaped(text) == Escaped(TextAt(input, path).value)
  {
    hide Stripped, Dumped, Escaped, BlockOf, IsNamed, MaskOf;
    SizeFollowsTheText(input, path, text);
    assert InputKeys(input) == InputKeys(WithTextAt(input, path, text));
    BlocksShow(x, y, masks, masks);
  }
  predicate IsPlainText(text: string) { forall i | 0 <= i < |text| :: IsPlain(text[i]) }

  /** Between texts of printable ASCII without quotes and backslashes the bytes do decide. */
  lemma PlainInputTextsCountAsBytes(x: Value, y: Value, input: Value, path: seq<nat>, text: string,
                                    masks: map<string, string>)
    requires x.Obj? && y.Obj? && KindOf(x) == KindOf(y) == Str("tool_use")
    requires IsNamed(x) && IsNamed(y) && Stripped(x) == Stripped(y)
    requires Get(x, "cache_control") == Get(y, "cache_control")
    requires path != [] && TextAt(input, path).Some?
    requires Get(x, "input") == Some(input) && Get(y, "input") == Some(WithTextAt(input, path, text))
    requires IsPlainText(text) && IsPlainText(TextAt(input, path).value)
    ensures BlockOf(x, masks) == BlockOf(y, masks) <==> Utf8(text) == Utf8(TextAt(input, path).value)
  {
    hide Stripped, Escaped, Utf8, BlockOf, IsNamed, IsPlain, WithTextAt, TextAt;
    InputTextsCountAsWritten(x, y, input, path, text, masks);
    PlainTextIsWrittenAsItIs(text);
    PlainTextIsWrittenAsItIs(TextAt(input, path).value);
  }
}
