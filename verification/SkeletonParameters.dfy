/** What a skeleton keeps of a request's parameters: every value but the system, the tools and the messages, by key
    in order, and of a metadata table its keys alone. */
module SkeletonParameters {
  import opened Text
  import opened Json
  import opened Skeleton
  import Order

  function Texts(texts: seq<string>): Value { Arr(seq(|texts|, i requires 0 <= i < |texts| => Str(texts[i]))) }

  /** A table's keys in order, as a list of texts. */
  ghost predicate AreSortedKeys(list: Value, table: Value)
    requires table.Obj?
  {
    exists texts ::
      list == Texts(texts) && multiset(texts) == multiset(Keys(table)) && Order.IsSorted(texts, Order.Before)
  }

  /** What is kept of one parameter, if anything is. */
  ghost predicate IsKept(body: Value, key: string, kept: Option<Value>) {
    if key == "system" || key == "tools" || key == "messages" then kept == None
    else if key == "metadata" && Get(body, "metadata").Some? && Get(body, "metadata").value.Obj? then
      kept.Some? && AreSortedKeys(kept.value, Get(body, "metadata").value)
    else kept == Get(body, key)
  }

  // ----- the entries -----

  /** The entries are those of the keys, each once and in order. */
  ghost predicate AreParameters(body: Value, keys: seq<string>, entries: seq<(string, Value)>) {
    && (forall e :: e in entries <==> e.0 in keys && e.0 !in APART && e.1 == ParameterOf(body, e.0))
    && (forall i, j | 0 <= i < j < |entries| ::
          entries[i].0 != entries[j].0 && Order.Before(entries[i].0, entries[j].0))
  }

  lemma {:induction false} ParametersAre(body: Value, keys: seq<string>)
    requires Order.IsSorted(keys, Order.Before)
    ensures AreParameters(body, keys, ParametersOf(body, keys))
  {
    hide ParameterOf, Set;
    if keys != [] {
      var init, last := keys[..|keys| - 1], keys[|keys| - 1];
      ParametersAre(body, init);
      var before := ParametersOf(body, init);
      assert keys == init + [last];
      if last !in APART {
        OneParameterMore(body, init, last, before);
      }
    }
  }

  lemma SetAgain(entries: seq<(string, Value)>, key: string, value: Value)
    requires (key, value) in entries && forall i, j | 0 <= i < j < |entries| :: entries[i].0 != entries[j].0
    ensures Set(entries, key, value) == entries
  {
    var k :| 0 <= k < |entries| && entries[k] == (key, value);
    assert forall i | 0 <= i < |entries| && i != k :: entries[i].0 != key;
  }

  lemma OneParameterMore(body: Value, init: seq<string>, last: string, before: seq<(string, Value)>)
    requires AreParameters(body, init, before) && last !in APART
    requires forall key | key in init :: Order.Before(key, last)
    ensures AreParameters(body, init + [last], Set(before, last, ParameterOf(body, last)))
  {
    hide ParameterOf, Set, Order.Before;
    var e := (last, ParameterOf(body, last));
    if last in init {
      assert e in before;
      SetAgain(before, last, ParameterOf(body, last));
    } else {
      forall i | 0 <= i < |before| ensures before[i].0 != last {
        assert before[i] in before;
      }
      SetNew(before, last, ParameterOf(body, last));
    }
  }

  lemma KeysAreSorted(keys: seq<string>)
    ensures Order.IsSorted(SortedKeys(keys), Order.Before)
    ensures forall key :: key in SortedKeys(keys) <==> key in keys
  {
    Order.TextsAreOrdered();
    Order.SortedHolds(keys, Order.Before);
    forall key ensures key in SortedKeys(keys) <==> key in keys {
      assert key in multiset(SortedKeys(keys)) <==> key in multiset(keys);
    }
  }

  lemma LookedUp(entries: seq<(string, Value)>, key: string)
    requires forall i, j | 0 <= i < j < |entries| :: entries[i].0 != entries[j].0
    ensures forall e | e in entries && e.0 == key :: Lookup(entries, key) == Some(e.1)
    ensures (forall e | e in entries :: e.0 != key) ==> Lookup(entries, key) == None
  {
    forall e | e in entries && e.0 == key ensures Lookup(entries, key) == Some(e.1) {
      assert (key, Lookup(entries, key).value) in entries;
      var i :| 0 <= i < |entries| && entries[i] == e;
      var j :| 0 <= j < |entries| && entries[j] == (key, Lookup(entries, key).value);
    }
  }

  /** The parameters of a skeleton are those of the body: each key's own value, in the order of the keys, but for
      the three that are reduced and a metadata table. */
  lemma ParametersAreKept(body: Value, key: string)
    requires body.Obj?
    ensures var entries := ParametersOf(body, SortedKeys(Keys(body)));
            && IsKept(body, key, Lookup(entries, key))
            && forall i, j | 0 <= i < j < |entries| ::
                 entries[i].0 != entries[j].0 && Order.Before(entries[i].0, entries[j].0)
  {
    var keys := SortedKeys(Keys(body));
    var entries := ParametersOf(body, keys);
    KeysAreSorted(Keys(body));
    ParametersAre(body, keys);
    LookedUp(entries, key);
    InKeys(body, key);
    Apart(key);
    hide ParametersOf, SortedKeys, ParameterOf, IsKept;
    if key !in APART && Get(body, key).Some? {
      assert (key, ParameterOf(body, key)) in entries;
      ParameterIsKept(body, key);
    } else {
      assert Lookup(entries, key) == None;
      NotKept(body, key);
    }
  }

  lemma NotKept(body: Value, key: string)
    requires Get(body, key).None? || key == "system" || key == "tools" || key == "messages"
    ensures IsKept(body, key, None)
  {}

  lemma Apart(key: string)
    ensures key in APART <==> key == "system" || key == "tools" || key == "messages"
  {
    assert APART[0] == "system" && APART[1] == "tools" && APART[2] == "messages";
  }

  lemma InKeys(body: Value, key: string)
    requires body.Obj?
    ensures key in Keys(body) <==> Get(body, key).Some?
  {
    if e :| e in body.entries && e.0 == key {
      var i :| 0 <= i < |body.entries| && body.entries[i] == e;
      assert Keys(body)[i] == key;
    }
    if key in Keys(body) {
      var i :| 0 <= i < |Keys(body)| && Keys(body)[i] == key;
      assert body.entries[i] in body.entries;
    }
  }

  lemma ParameterIsKept(body: Value, key: string)
    requires body.Obj? && Get(body, key).Some?
    requires key != "system" && key != "tools" && key != "messages"
    ensures IsKept(body, key, Some(ParameterOf(body, key)))
  {
    hide AreSortedKeys, SortedKeys;
    var value := Get(body, key).value;
    if key == "metadata" && value.Obj? {
      SortedKeysAre(value);
    }
  }

  lemma SortedKeysAre(table: Value)
    requires table.Obj?
    ensures AreSortedKeys(Texts(SortedKeys(Keys(table))), table)
  {
    KeysAreSorted(Keys(table));
  }

  lemma SortedKeysAreOne(a: Value, x: Value, b: Value, y: Value)
    requires x.Obj? && y.Obj? && AreSortedKeys(a, x) && AreSortedKeys(b, y)
    ensures a == b <==> multiset(Keys(x)) == multiset(Keys(y))
  {
    var s :| a == Texts(s) && multiset(s) == multiset(Keys(x)) && Order.IsSorted(s, Order.Before);
    var t :| b == Texts(t) && multiset(t) == multiset(Keys(y)) && Order.IsSorted(t, Order.Before);
    SameTexts(s, t);
    if multiset(s) == multiset(t) {
      Order.TextsAreOrdered();
      Order.SortedIsUnique(s, t, Order.Before);
    }
  }

  lemma SameTexts(s: seq<string>, t: seq<string>)
    ensures Texts(s) == Texts(t) <==> s == t
  {
    if Texts(s) == Texts(t) {
      assert |s| == |Texts(s).items| == |t|;
      forall i | 0 <= i < |s| ensures s[i] == t[i] {
        assert Texts(s).items[i] == Texts(t).items[i];
      }
    }
  }

  // ----- alike -----

  /** One parameter of two bodies reads alike: the same value, and of metadata tables the same keys. */
  ghost predicate ReadsAlikeAt(a: Value, b: Value, key: string) {
    var x, y := Get(a, key), Get(b, key);
    if key == "metadata" && x.Some? && x.value.Obj? then
      if y.Some? && y.value.Obj? then multiset(Keys(x.value)) == multiset(Keys(y.value))
      else y.Some? && AreSortedKeys(y.value, x.value)
    else if key == "metadata" && y.Some? && y.value.Obj? then x.Some? && AreSortedKeys(x.value, y.value)
    else x == y
  }

  ghost predicate ParametersReadAlike(a: Value, b: Value) {
    forall key | key != "system" && key != "tools" && key != "messages" :: ReadsAlikeAt(a, b, key)
  }

  /** Two entries lists in order hold the same exactly when they're the same. */
  lemma {:induction false} InOrderAreOne(a: seq<(string, Value)>, b: seq<(string, Value)>)
    requires InOrder(a) && InOrder(b)
    ensures (forall key :: Lookup(a, key) == Lookup(b, key)) ==> a == b
  {
    if (forall key :: Lookup(a, key) == Lookup(b, key)) {
      if a == [] || b == [] {
        HoldsSome(a);
        HoldsSome(b);
      } else {
        FirstOfAll(a, b);
        RestsAlike(a, b);
        InOrderAreOne(a[1..], b[1..]);
        assert a == [a[0]] + a[1..] && b == [b[0]] + b[1..];
      }
    }
  }

  lemma HoldsSome(entries: seq<(string, Value)>)
    ensures entries == [] <==> forall key :: Lookup(entries, key) == None
  {
    if entries != [] {
      assert Lookup(entries, entries[0].0).Some?;
    }
  }

  /** Each key once, in order. */
  ghost predicate InOrder(entries: seq<(string, Value)>) {
    forall i, j | 0 <= i < j < |entries| :: entries[i].0 != entries[j].0 && Order.Before(entries[i].0, entries[j].0)
  }

  lemma FirstOfAll(a: seq<(string, Value)>, b: seq<(string, Value)>)
    requires InOrder(a) && InOrder(b) && a != [] && b != [] && forall key :: Lookup(a, key) == Lookup(b, key)
    ensures a[0] == b[0]
  {
    assert Lookup(b, a[0].0) == Some(a[0].1) && Lookup(a, b[0].0) == Some(b[0].1);
    var i :| 0 <= i < |b| && b[i] == a[0];
    var j :| 0 <= j < |a| && a[j] == b[0];
    Order.BeforeIsTotal(a[0].0, b[0].0);
  }

  lemma RestsAlike(a: seq<(string, Value)>, b: seq<(string, Value)>)
    requires InOrder(a) && InOrder(b) && a != [] && b != [] && a[0] == b[0]
    requires forall key :: Lookup(a, key) == Lookup(b, key)
    ensures InOrder(a[1..]) && InOrder(b[1..]) && forall key :: Lookup(a[1..], key) == Lookup(b[1..], key)
  {
    forall key ensures Lookup(a[1..], key) == Lookup(b[1..], key) {
      assert Lookup(a, key) == Lookup(b, key);
      if key == a[0].0 {
        NotAgain(a);
        NotAgain(b);
      }
    }
  }

  lemma NotAgain(a: seq<(string, Value)>)
    requires InOrder(a) && a != []
    ensures Lookup(a[1..], a[0].0) == None
  {
    forall e | e in a[1..] ensures e.0 != a[0].0 {
      var i :| 0 <= i < |a[1..]| && a[1..][i] == e;
      assert a[i + 1] == e;
    }
  }

  lemma KeptAlike(a: Value, b: Value, key: string, x: Option<Value>, y: Option<Value>)
    requires a.Obj? && b.Obj? && IsKept(a, key, x) && IsKept(b, key, y)
    ensures key != "system" && key != "tools" && key != "messages" ==> (x == y <==> ReadsAlikeAt(a, b, key))
    ensures key == "system" || key == "tools" || key == "messages" ==> x == y
  {
    hide AreSortedKeys;
    if key == "metadata" {
      var s, t := Get(a, key), Get(b, key);
      if s.Some? && s.value.Obj? && t.Some? && t.value.Obj? {
        SortedKeysAreOne(x.value, s.value, y.value, t.value);
      } else if s.Some? && s.value.Obj? && t.Some? {
        OneSortedList(x.value, y.value, s.value);
      } else if t.Some? && t.value.Obj? && s.Some? {
        OneSortedList(y.value, x.value, t.value);
      }
    }
  }

  lemma OneSortedList(kept: Value, other: Value, table: Value)
    requires table.Obj? && AreSortedKeys(kept, table)
    ensures kept == other <==> AreSortedKeys(other, table)
  {
    hide AreSortedKeys;
    if AreSortedKeys(other, table) {
      SortedKeysAreOne(kept, table, other, table);
    }
  }

  /** Two bodies keep the same parameters exactly when these read alike. */
  lemma ParametersShow(a: Value, b: Value)
    requires a.Obj? && b.Obj?
    ensures ParametersOf(a, SortedKeys(Keys(a))) == ParametersOf(b, SortedKeys(Keys(b))) <==> ParametersReadAlike(a, b)
  {
    hide ParametersOf, SortedKeys, IsKept, ReadsAlikeAt;
    var x, y := ParametersOf(a, SortedKeys(Keys(a))), ParametersOf(b, SortedKeys(Keys(b)));
    ParametersAreKept(a, "");
    ParametersAreKept(b, "");
    forall key
      ensures key != "system" && key != "tools" && key != "messages" ==>
                (Lookup(x, key) == Lookup(y, key) <==> ReadsAlikeAt(a, b, key))
      ensures key == "system" || key == "tools" || key == "messages" ==> Lookup(x, key) == Lookup(y, key)
    {
      ParametersAreKept(a, key);
      ParametersAreKept(b, key);
      KeptAlike(a, b, key, Lookup(x, key), Lookup(y, key));
    }
    InOrderAreOne(x, y);
  }
}
