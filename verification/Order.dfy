/** The order of texts and of paths, and sorting by it. */
module Order {
  import opened Text

  /** Texts in the order of their characters, a prefix first. */
  predicate Before(a: string, b: string) {
    a == [] || (b != [] && (a[0] < b[0] || (a[0] == b[0] && Before(a[1..], b[1..]))))
  }

  /** Paths in the order of their components. */
  predicate PathBefore(a: seq<string>, b: seq<string>) {
    a == [] || (b != [] && (if a[0] == b[0] then PathBefore(a[1..], b[1..]) else Before(a[0], b[0])))
  }

  lemma {:induction false} BeforeIsTotal(a: string, b: string)
    ensures Before(a, b) || Before(b, a)
    ensures Before(a, b) && Before(b, a) ==> a == b
  {
    if a != [] && b != [] && a[0] == b[0] {
      BeforeIsTotal(a[1..], b[1..]);
    }
  }

  lemma {:induction false} BeforeIsTransitive(a: string, b: string, c: string)
    requires Before(a, b) && Before(b, c)
    ensures Before(a, c)
  {
    if a != [] && a[0] == b[0] == c[0] {
      BeforeIsTransitive(a[1..], b[1..], c[1..]);
    }
  }

  lemma {:induction false} PathBeforeIsTotal(a: seq<string>, b: seq<string>)
    ensures PathBefore(a, b) || PathBefore(b, a)
    ensures PathBefore(a, b) && PathBefore(b, a) ==> a == b
  {
    if a != [] && b != [] {
      if a[0] == b[0] {
        PathBeforeIsTotal(a[1..], b[1..]);
      } else {
        BeforeIsTotal(a[0], b[0]);
      }
    }
  }

  lemma {:induction false} PathBeforeIsTransitive(a: seq<string>, b: seq<string>, c: seq<string>)
    requires PathBefore(a, b) && PathBefore(b, c)
    ensures PathBefore(a, c)
  {
    if a != [] {
      if a[0] == b[0] == c[0] {
        PathBeforeIsTransitive(a[1..], b[1..], c[1..]);
      } else if a[0] != b[0] && b[0] != c[0] {
        BeforeIsTransitive(a[0], b[0], c[0]);
        BeforeIsTotal(a[0], b[0]);
      }
    }
  }

  /** A total order. */
  ghost predicate IsOrder<T(!new)>(before: (T, T) -> bool) {
    && (forall a, b :: before(a, b) || before(b, a))
    && (forall a, b :: before(a, b) && before(b, a) ==> a == b)
    && (forall a, b, c :: before(a, b) && before(b, c) ==> before(a, c))
  }

  lemma TextsAreOrdered()
    ensures IsOrder(Before)
  {
    forall a, b {
      BeforeIsTotal(a, b);
    }
    forall a, b, c | Before(a, b) && Before(b, c) {
      BeforeIsTransitive(a, b, c);
    }
  }

  lemma PathsAreOrdered()
    ensures IsOrder(PathBefore)
  {
    forall a, b {
      PathBeforeIsTotal(a, b);
    }
    forall a, b, c | PathBefore(a, b) && PathBefore(b, c) {
      PathBeforeIsTransitive(a, b, c);
    }
  }

  predicate IsSorted<T>(items: seq<T>, before: (T, T) -> bool) {
    forall i, j | 0 <= i < j < |items| :: before(items[i], items[j])
  }

  function Inserted<T>(items: seq<T>, x: T, before: (T, T) -> bool): seq<T> {
    if items == [] || before(x, items[0]) then [x] + items
    else [items[0]] + Inserted(items[1..], x, before)
  }

  function Sorted<T>(items: seq<T>, before: (T, T) -> bool): seq<T> {
    if items == [] then [] else Inserted(Sorted(items[1..], before), items[0], before)
  }

  lemma {:induction false} InsertedKeepsAll<T>(items: seq<T>, x: T, before: (T, T) -> bool)
    ensures multiset(Inserted(items, x, before)) == multiset(items) + multiset{x}
  {
    if items != [] && !before(x, items[0]) {
      InsertedKeepsAll(items[1..], x, before);
      assert items == [items[0]] + items[1..];
    }
  }

  lemma {:induction false} InsertedIsSorted<T(!new)>(items: seq<T>, x: T, before: (T, T) -> bool)
    requires IsOrder(before) && IsSorted(items, before)
    ensures IsSorted(Inserted(items, x, before), before)
  {
    if items != [] {
      if before(x, items[0]) {
        forall y | y in items ensures before(x, y) {
          assert y == items[0] || before(items[0], y);
        }
      } else {
        InsertedIsSorted(items[1..], x, before);
        var rest := Inserted(items[1..], x, before);
        InsertedKeepsAll(items[1..], x, before);
        forall y | y in rest ensures before(items[0], y) {
          assert y in multiset(rest);
        }
      }
    }
  }

  /** Sorting puts what's given in order, and keeps each as often as it was. */
  lemma {:induction false} SortedHolds<T(!new)>(items: seq<T>, before: (T, T) -> bool)
    requires IsOrder(before)
    ensures multiset(Sorted(items, before)) == multiset(items)
    ensures IsSorted(Sorted(items, before), before)
  {
    if items != [] {
      SortedHolds(items[1..], before);
      InsertedKeepsAll(Sorted(items[1..], before), items[0], before);
      InsertedIsSorted(Sorted(items[1..], before), items[0], before);
      assert items == [items[0]] + items[1..];
    }
  }

  /** There's one way only to put them in order. */
  lemma {:induction false} SortedIsUnique<T(!new)>(a: seq<T>, b: seq<T>, before: (T, T) -> bool)
    requires IsOrder(before) && multiset(a) == multiset(b)
    requires IsSorted(a, before) && IsSorted(b, before)
    ensures a == b
  {
    assert |b| == |multiset(b)| == |multiset(a)|;
    if a != [] {
      SmallestFirst(a, b, before);
      Rests(a);
      Rests(b);
      hide IsOrder;
      SortedIsUnique(a[1..], b[1..], before);
    }
  }

  lemma Rests<T>(a: seq<T>)
    requires a != []
    ensures a == [a[0]] + a[1..] && multiset(a[1..]) == multiset(a) - multiset{a[0]}
  {
    assert a == [a[0]] + a[1..];
  }

  lemma SmallestFirst<T(!new)>(a: seq<T>, b: seq<T>, before: (T, T) -> bool)
    requires IsOrder(before) && multiset(a) == multiset(b) && a != [] && b != []
    requires IsSorted(a, before) && IsSorted(b, before)
    ensures a[0] == b[0]
  {
    assert a[0] in multiset(b) && b[0] in multiset(a);
    assert before(a[0], b[0]) && before(b[0], a[0]);
  }

  // ----- by rank -----

  predicate IsRanked<T>(items: seq<T>, rank: T -> int) {
    forall i, j | 0 <= i < j < |items| :: rank(items[i]) <= rank(items[j])
  }

  /** Where an item goes in a ranked list: behind those of its own rank. */
  function PutBehind<T>(items: seq<T>, x: T, rank: T -> int): seq<T> {
    if items == [] || rank(items[0]) > rank(x) then [x] + items
    else [items[0]] + PutBehind(items[1..], x, rank)
  }

  /** `sort` by a key. */
  function SortedBy<T>(items: seq<T>, rank: T -> int): seq<T> {
    if items == [] then []
    else PutBehind(SortedBy(items[..|items| - 1], rank), items[|items| - 1], rank)
  }

  function OfRank<T>(items: seq<T>, rank: T -> int, r: int): seq<T> {
    if items == [] then []
    else (if rank(items[0]) == r then [items[0]] else []) + OfRank(items[1..], rank, r)
  }

  lemma {:induction false} PutBehindKeepsAll<T>(items: seq<T>, x: T, rank: T -> int)
    ensures multiset(PutBehind(items, x, rank)) == multiset(items) + multiset{x}
  {
    if items != [] && rank(items[0]) <= rank(x) {
      PutBehindKeepsAll(items[1..], x, rank);
      assert items == [items[0]] + items[1..];
    }
  }

  lemma {:induction false} PutBehindIsRanked<T>(items: seq<T>, x: T, rank: T -> int)
    requires IsRanked(items, rank)
    ensures IsRanked(PutBehind(items, x, rank), rank)
  {
    if items != [] && rank(items[0]) <= rank(x) {
      PutBehindIsRanked(items[1..], x, rank);
      var rest := PutBehind(items[1..], x, rank);
      PutBehindKeepsAll(items[1..], x, rank);
      forall y | y in rest ensures rank(items[0]) <= rank(y) {
        assert y in multiset(rest);
      }
    }
  }

  lemma NothingIsRanked<T>(rank: T -> int)
    ensures IsRanked([], rank)
  {}

  /** Sorting by a key puts the ranks in order and keeps each item as often as it was. */
  lemma {:induction false} SortedByHolds<T>(items: seq<T>, rank: T -> int)
    ensures IsRanked(SortedBy(items, rank), rank)
    ensures multiset(SortedBy(items, rank)) == multiset(items)
  {
    NothingIsRanked(rank);
    hide PutBehind, IsRanked;
    if items != [] {
      var init, last := items[..|items| - 1], items[|items| - 1];
      SortedByHolds(init, rank);
      PutBehindKeepsAll(SortedBy(init, rank), last, rank);
      PutBehindIsRanked(SortedBy(init, rank), last, rank);
      assert items == init + [last];
    }
  }

  lemma {:induction false} OfRankConcat<T>(a: seq<T>, b: seq<T>, rank: T -> int, r: int)
    ensures OfRank(a + b, rank, r) == OfRank(a, rank, r) + OfRank(b, rank, r)
  {
    if a == [] {
      assert a + b == b;
    } else {
      var first := if rank(a[0]) == r then [a[0]] else [];
      var rest := a[1..] + b;
      OfRankConcat(a[1..], b, rank, r);
      OfRankMore(a[0], rest, rank, r);
      OfRankMore(a[0], a[1..], rank, r);
      hide OfRank;
      assert a + b == [a[0]] + rest && a == [a[0]] + a[1..];
      Assoc(first, OfRank(a[1..], rank, r), OfRank(b, rank, r));
    }
  }

  lemma OfRankMore<T>(x: T, rest: seq<T>, rank: T -> int, r: int)
    ensures OfRank([x] + rest, rank, r) == (if rank(x) == r then [x] else []) + OfRank(rest, rank, r)
  {
    assert ([x] + rest)[1..] == rest;
  }

  lemma {:induction false} NoneOfRank<T>(items: seq<T>, rank: T -> int, r: int)
    requires forall i | 0 <= i < |items| :: rank(items[i]) > r
    ensures OfRank(items, rank, r) == []
  {
    if items != [] {
      NoneOfRank(items[1..], rank, r);
    }
  }

  lemma {:induction false} PutBehindOfRank<T>(items: seq<T>, x: T, rank: T -> int, r: int)
    requires IsRanked(items, rank)
    ensures OfRank(PutBehind(items, x, rank), rank, r) == OfRank(items, rank, r) + (if rank(x) == r then [x] else [])
  {
    if items == [] || rank(items[0]) > rank(x) {
      if rank(x) == r {
        NoneOfRank(items, rank, r);
      }
      assert ([x] + items)[1..] == items;
    } else {
      PutBehindOfRank(items[1..], x, rank, r);
      assert PutBehind(items, x, rank)[1..] == PutBehind(items[1..], x, rank);
    }
  }

  /** Items of one rank keep their order. */
  lemma {:induction false} SortedByIsStable<T>(items: seq<T>, rank: T -> int, r: int)
    ensures OfRank(SortedBy(items, rank), rank, r) == OfRank(items, rank, r)
  {
    hide PutBehind, IsRanked;
    if items != [] {
      var init, last := items[..|items| - 1], items[|items| - 1];
      SortedByIsStable(init, rank, r);
      SortedByHolds(init, rank);
      PutBehindOfRank(SortedBy(init, rank), last, rank, r);
      OfRankConcat(init, [last], rank, r);
      assert items == init + [last] && [last][1..] == [];
    }
  }
}
