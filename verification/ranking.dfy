/** The ordering `render` shows (app.js:175-177): a copy of the list sorted with the
    comparator `score(b) - score(a)`. ECMAScript 2019 and later require
    Array.prototype.sort to be stable, so the result is the unique list that is
    ordered by non-increasing score and keeps equal-score parishes in input order. */
module Ranking {
  import opened Parishes
  import opened Scoring
  import opened Seqs

  /** Keys never increase from left to right. */
  predicate SortedDesc<T>(s: seq<T>, key: T -> int) {
    forall i, j :: 0 <= i < j < |s| ==> key(s[i]) >= key(s[j])
  }

  /** The elements of `s` whose key is `k`, in their order in `s`. */
  function WithKey<T(==,!new)>(s: seq<T>, key: T -> int, k: int): seq<T> {
    Filter(s, x => key(x) == k)
  }

  /** Putting an element with the largest key in front of a sorted list keeps it sorted. */
  lemma SortedCons<T>(x: T, s: seq<T>, key: T -> int)
    requires |s| == 0 || key(x) >= key(s[0])
    ensures SortedDesc(s, key) ==> SortedDesc([x] + s, key)
  {
    if SortedDesc(s, key) {
      var r := [x] + s;
      forall i, j | 0 <= i < j < |r| ensures key(r[i]) >= key(r[j]) {
        if i == 0 && j > 1 {
          assert key(s[0]) >= key(s[j - 1]);
        }
      }
    }
  }

  /** Inserts `x` in front of the first element whose key is not larger than its own. */
  function Insert<T(==,!new)>(x: T, s: seq<T>, key: T -> int): (r: seq<T>)
    ensures |r| == |s| + 1
    ensures multiset(r) == multiset(s) + multiset{x}
    ensures r[0] == x || (|s| > 0 && r[0] == s[0])
    ensures SortedDesc(s, key) ==> SortedDesc(r, key)
  {
    if |s| == 0 then [x]
    else if key(s[0]) <= key(x) then
      assert s == [s[0]] + s[1..];
      SortedCons(x, s, key);
      [x] + s
    else
      var rest := Insert(x, s[1..], key);
      assert s == [s[0]] + s[1..];
      SortedInsertStep(x, s, rest, key);
      [s[0]] + rest
  }

  /** The recursive step of `Insert`: the head of `s` still leads when it outranks `x`. */
  lemma SortedInsertStep<T>(x: T, s: seq<T>, rest: seq<T>, key: T -> int)
    requires |s| > 0 && key(s[0]) > key(x)
    requires |rest| > 0 && (rest[0] == x || (|s| > 1 && rest[0] == s[1]))
    requires SortedDesc(s[1..], key) ==> SortedDesc(rest, key)
    ensures SortedDesc(s, key) ==> SortedDesc([s[0]] + rest, key)
  {
    if SortedDesc(s, key) {
      assert SortedDesc(s[1..], key);
      SortedCons(s[0], rest, key);
    }
  }

  /** Insertion sort from the back: each element goes in front of the equal keys that
      follow it in the input, which keeps the sort stable. */
  function SortDesc<T(==,!new)>(s: seq<T>, key: T -> int): (r: seq<T>)
    ensures |r| == |s|
    ensures multiset(r) == multiset(s)
    ensures SortedDesc(r, key)
  {
    if |s| == 0 then []
    else
      assert s == [s[0]] + s[1..];
      Insert(s[0], SortDesc(s[1..], key), key)
  }

  /** `Insert` stops at the front when `x` outranks or ties the head. */
  lemma InsertFront<T(!new)>(x: T, s: seq<T>, key: T -> int)
    requires |s| == 0 || key(s[0]) <= key(x)
    ensures Insert(x, s, key) == [x] + s
  {
  }

  /** `Insert` passes over a head that outranks `x`. */
  lemma InsertPast<T(!new)>(x: T, s: seq<T>, key: T -> int)
    requires |s| > 0 && key(s[0]) > key(x)
    ensures Insert(x, s, key) == [s[0]] + Insert(x, s[1..], key)
  {
  }

  /** Inserting `x` adds it at the front of its key class and leaves the other classes alone. */
  lemma {:induction false} InsertWithKey<T(!new)>(x: T, s: seq<T>, key: T -> int, k: int)
    ensures WithKey(Insert(x, s, key), key, k) == (if key(x) == k then [x] else []) + WithKey(s, key, k)
  {
    if |s| == 0 || key(s[0]) <= key(x) {
      InsertFront(x, s, key);
      WithKeyCons(x, s, key, k);
    } else {
      var rest := Insert(x, s[1..], key);
      InsertPast(x, s, key);
      InsertWithKey(x, s[1..], key, k);
      WithKeyCons(s[0], rest, key, k);
      WithKeyCons(s[0], s[1..], key, k);
      assert [s[0]] + s[1..] == s;
      var p := if key(x) == k then [x] else [];
      var q := if key(s[0]) == k then [s[0]] else [];
      SwapSingletons(q, p, WithKey(s[1..], key, k));
    }
  }

  /** At most one of two optional single elements is present, so their order does not matter. */
  lemma SwapSingletons<T>(q: seq<T>, p: seq<T>, tail: seq<T>)
    requires q == [] || p == []
    ensures q + (p + tail) == p + (q + tail)
  {
    if q == [] {
      assert q + (p + tail) == p + tail;
    } else {
      assert p + tail == tail;
    }
  }

  /** Stability: within each key class the sorted list keeps the input order. */
  lemma {:induction false} SortStable<T(!new)>(s: seq<T>, key: T -> int, k: int)
    ensures WithKey(SortDesc(s, key), key, k) == WithKey(s, key, k)
  {
    if |s| > 0 {
      SortStable(s[1..], key, k);
      InsertWithKey(s[0], SortDesc(s[1..], key), key, k);
    }
  }

  lemma WithKeyCons<T(!new)>(x: T, s: seq<T>, key: T -> int, k: int)
    ensures WithKey([x] + s, key, k) == (if key(x) == k then [x] else []) + WithKey(s, key, k)
  {
    assert ([x] + s)[1..] == s;
  }

  /** A non-empty list has a non-empty class: its head's. */
  lemma HeadInItsClass<T(!new)>(s: seq<T>, key: T -> int)
    requires |s| > 0
    ensures s[0] in WithKey(s, key, key(s[0]))
  {
  }

  /** A list whose every class is empty is empty. */
  lemma NoClassesEmpty<T(!new)>(a: seq<T>, b: seq<T>, key: T -> int)
    requires |a| == 0
    requires forall k :: WithKey(a, key, k) == WithKey(b, key, k)
    ensures |b| == 0
  {
    if |b| > 0 {
      HeadInItsClass(b, key);
    }
  }

  /** The head of a sorted list has the largest key. */
  lemma HeadIsMax<T>(s: seq<T>, y: T, key: T -> int)
    requires SortedDesc(s, key) && y in s
    ensures key(s[0]) >= key(y)
  {
    var i :| 0 <= i < |s| && s[i] == y;
    assert i == 0 || key(s[0]) >= key(s[i]);
  }

  /** Two sorted lists with the same key classes start with the same key. */
  lemma SameLeadingKey<T(!new)>(a: seq<T>, b: seq<T>, key: T -> int)
    requires SortedDesc(a, key) && SortedDesc(b, key) && |a| > 0 && |b| > 0
    requires forall k :: WithKey(a, key, k) == WithKey(b, key, k)
    ensures key(a[0]) == key(b[0])
  {
    assert b[0] in WithKey(b, key, key(b[0]));
    assert b[0] in WithKey(a, key, key(b[0]));
    HeadIsMax(a, b[0], key);
    assert a[0] in WithKey(a, key, key(a[0]));
    assert a[0] in WithKey(b, key, key(a[0]));
    HeadIsMax(b, a[0], key);
  }

  /** A non-empty list's class of its head key starts with the head. */
  lemma WithKeyHead<T(!new)>(s: seq<T>, key: T -> int)
    requires |s| > 0
    ensures |WithKey(s, key, key(s[0]))| > 0 && WithKey(s, key, key(s[0]))[0] == s[0]
  {
    WithKeyCons(s[0], s[1..], key, key(s[0]));
    assert [s[0]] + s[1..] == s;
  }

  /** Two sorted lists with the same key classes start with the same element. */
  lemma SameHead<T(!new)>(a: seq<T>, b: seq<T>, key: T -> int)
    requires SortedDesc(a, key) && SortedDesc(b, key) && |a| > 0 && |b| > 0
    requires forall k :: WithKey(a, key, k) == WithKey(b, key, k)
    ensures a[0] == b[0]
  {
    SameLeadingKey(a, b, key);
    WithKeyHead(a, key);
    WithKeyHead(b, key);
    assert WithKey(a, key, key(a[0])) == WithKey(b, key, key(b[0]));
  }

  /** Removing a common head keeps the key classes equal. */
  lemma SameTailClasses<T(!new)>(a: seq<T>, b: seq<T>, key: T -> int)
    requires |a| > 0 && |b| > 0 && a[0] == b[0]
    requires forall k :: WithKey(a, key, k) == WithKey(b, key, k)
    ensures forall k :: WithKey(a[1..], key, k) == WithKey(b[1..], key, k)
  {
    assert a == [a[0]] + a[1..];
    assert b == [b[0]] + b[1..];
    forall k ensures WithKey(a[1..], key, k) == WithKey(b[1..], key, k) {
      WithKeyCons(a[0], a[1..], key, k);
      WithKeyCons(b[0], b[1..], key, k);
      var p := if key(a[0]) == k then [a[0]] else [];
      assert p + WithKey(a[1..], key, k) == p + WithKey(b[1..], key, k);
      assert (p + WithKey(a[1..], key, k))[|p|..] == WithKey(a[1..], key, k);
      assert (p + WithKey(b[1..], key, k))[|p|..] == WithKey(b[1..], key, k);
    }
  }

  /** A sorted list is determined by its key classes: two lists ordered by non-increasing
      key with the same elements, in the same order, in every class are equal. */
  lemma {:induction false} SortedByClassesUnique<T(!new)>(a: seq<T>, b: seq<T>, key: T -> int)
    requires SortedDesc(a, key) && SortedDesc(b, key)
    requires forall k :: WithKey(a, key, k) == WithKey(b, key, k)
    ensures a == b
    decreases |a|
  {
    if |a| == 0 {
      NoClassesEmpty(a, b, key);
    } else if |b| == 0 {
      NoClassesEmpty(b, a, key);
    } else {
      SameHead(a, b, key);
      SameTailClasses(a, b, key);
      SortedByClassesUnique(a[1..], b[1..], key);
    }
  }

  /** The score every parish is ranked by. */
  function ScoreKey(w: Weights): (key: Parish -> int)
    requires MaxPossible(w) != 0.0
  {
    p => ReverenceScore(p, w)
  }

  /** The order `render` lists parishes in: by descending score, ties in input order. */
  function Rank(parishes: seq<Parish>, w: Weights): (r: seq<Parish>)
    requires MaxPossible(w) != 0.0
    ensures multiset(r) == multiset(parishes)
    ensures forall i, j :: 0 <= i < j < |r| ==> ReverenceScore(r[i], w) >= ReverenceScore(r[j], w)
  {
    SortDesc(parishes, ScoreKey(w))
  }

  /** Parishes with equal scores appear in `Rank`'s list in their input order. */
  lemma RankStable(parishes: seq<Parish>, w: Weights, k: int)
    requires MaxPossible(w) != 0.0
    ensures WithKey(Rank(parishes, w), ScoreKey(w), k) == WithKey(parishes, ScoreKey(w), k)
  {
    SortStable(parishes, ScoreKey(w), k);
  }

  /** Any stable descending sort by score gives exactly `Rank`'s list. */
  lemma RankIsTheStableSort(parishes: seq<Parish>, w: Weights, r: seq<Parish>)
    requires MaxPossible(w) != 0.0
    requires forall i, j :: 0 <= i < j < |r| ==> ReverenceScore(r[i], w) >= ReverenceScore(r[j], w)
    requires forall k :: WithKey(r, ScoreKey(w), k) == WithKey(parishes, ScoreKey(w), k)
    ensures r == Rank(parishes, w)
  {
    forall k ensures WithKey(r, ScoreKey(w), k) == WithKey(Rank(parishes, w), ScoreKey(w), k) {
      RankStable(parishes, w, k);
    }
    SortedByClassesUnique(r, Rank(parishes, w), ScoreKey(w));
  }

  /** The seed parishes, scoring 83, 57 and 40 under weights 3/2/2, keep their order. */
  lemma SeedRanking(parishes: seq<Parish>)
    requires parishes == SeedParishes()
    ensures Rank(parishes, ExampleWeights()) == parishes
  {
    var w := ExampleWeights();
    StJohnVianneyScore(parishes[0]);
    HolyTrinityScore(parishes[1]);
    OurLadyOfTheAngelsScore(parishes[2]);
    ThreeInOrder(parishes, w);
  }

  /** Three parishes already listed by descending score keep their order. */
  lemma ThreeInOrder(parishes: seq<Parish>, w: Weights)
    requires MaxPossible(w) != 0.0 && |parishes| == 3
    requires ReverenceScore(parishes[0], w) >= ReverenceScore(parishes[1], w) >= ReverenceScore(parishes[2], w)
    ensures Rank(parishes, w) == parishes
  {
    RankIsTheStableSort(parishes, w, parishes);
  }
}
