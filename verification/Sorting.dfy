/** Ordering by an integer key, as ORDER BY and list.sort do it, and when that order does not
    depend on the order of the input. */
module Sorting {

  ghost predicate Ascending<T>(key: T -> int, xs: seq<T>) {
    forall i, j :: 0 <= i < j < |xs| ==> key(xs[i]) <= key(xs[j])
  }

  ghost predicate DistinctKeys<T>(key: T -> int, xs: seq<T>) {
    forall i, j :: 0 <= i < j < |xs| ==> key(xs[i]) != key(xs[j])
  }

  function InsertBy<T>(key: T -> int, x: T, ys: seq<T>): seq<T> {
    if ys == [] || key(x) <= key(ys[0]) then [x] + ys
    else [ys[0]] + InsertBy(key, x, ys[1..])
  }

  /** Stable ascending sort. */
  function SortBy<T>(key: T -> int, xs: seq<T>): seq<T> {
    if xs == [] then [] else InsertBy(key, xs[0], SortBy(key, xs[1..]))
  }

  lemma {:induction false} InsertAdds<T>(key: T -> int, x: T, ys: seq<T>)
    ensures multiset(InsertBy(key, x, ys)) == multiset{x} + multiset(ys)
  {
    if ys != [] && key(x) > key(ys[0]) {
      InsertAdds(key, x, ys[1..]);
      assert ys == [ys[0]] + ys[1..];
    }
  }

  lemma {:induction false} InsertOrders<T>(key: T -> int, x: T, ys: seq<T>)
    requires Ascending(key, ys)
    ensures Ascending(key, InsertBy(key, x, ys))
    ensures forall z :: z in InsertBy(key, x, ys) ==> z == x || z in ys
  {
    if ys != [] && key(x) > key(ys[0]) {
      InsertOrders(key, x, ys[1..]);
      var zs := InsertBy(key, x, ys[1..]);
      forall i | 0 <= i < |zs| ensures key(ys[0]) <= key(zs[i]) {
        assert zs[i] in zs;
      }
    }
  }

  lemma {:induction false} SortSorts<T>(key: T -> int, xs: seq<T>)
    ensures Ascending(key, SortBy(key, xs))
    ensures multiset(SortBy(key, xs)) == multiset(xs)
    ensures |SortBy(key, xs)| == |xs|
  {
    if xs != [] {
      SortSorts(key, xs[1..]);
      InsertAdds(key, xs[0], SortBy(key, xs[1..]));
      InsertOrders(key, xs[0], SortBy(key, xs[1..]));
      assert xs == [xs[0]] + xs[1..];
    }
    assert |multiset(SortBy(key, xs))| == |SortBy(key, xs)| && |multiset(xs)| == |xs|;
  }

  /** A list that is already in order is left alone. */
  lemma {:induction false} SortFixes<T>(key: T -> int, xs: seq<T>)
    requires Ascending(key, xs)
    ensures SortBy(key, xs) == xs
  {
    if xs != [] {
      SortFixes(key, xs[1..]);
      assert xs == [xs[0]] + xs[1..];
    }
  }

  function RemoveAt<T>(xs: seq<T>, j: nat): seq<T>
    requires j < |xs|
  {
    xs[..j] + xs[j + 1..]
  }

  lemma SplitAround<T>(xs: seq<T>, j: nat)
    requires j < |xs|
    ensures xs == xs[..j] + ([xs[j]] + xs[j + 1..])
  {
  }

  lemma RemovedBag<T>(xs: seq<T>, j: nat)
    requires j < |xs|
    ensures multiset(RemoveAt(xs, j)) == multiset(xs) - multiset{xs[j]}
  {
    SplitAround(xs, j);
  }

  lemma RemovedOrder<T>(key: T -> int, xs: seq<T>, j: nat)
    requires j < |xs| && Ascending(key, xs)
    ensures Ascending(key, RemoveAt(xs, j))
  {
  }

  /** Two ascending arrangements of the same elements carry the same keys position by position. */
  lemma {:induction false} SameKeys<T>(key: T -> int, xs: seq<T>, ys: seq<T>)
    requires Ascending(key, xs) && Ascending(key, ys) && multiset(xs) == multiset(ys)
    ensures |xs| == |ys|
    ensures forall i :: 0 <= i < |xs| ==> key(xs[i]) == key(ys[i])
  {
    assert |multiset(xs)| == |xs| && |multiset(ys)| == |ys|;
    if xs != [] {
      var j := SameFirstKey(key, xs, ys);
      RemovedFirst(xs);
      RemovedBag(ys, j);
      RemovedOrder(key, ys, j);
      SameKeys(key, xs[1..], RemoveAt(ys, j));
      KeysShift(key, xs, ys, j);
    }
  }

  lemma RemovedFirst<T>(xs: seq<T>)
    requires xs != []
    ensures multiset(xs[1..]) == multiset(xs) - multiset{xs[0]}
  {
    assert xs == [xs[0]] + xs[1..];
  }

  lemma KeysShift<T>(key: T -> int, xs: seq<T>, ys: seq<T>, j: nat)
    requires |xs| == |ys| && j < |ys|
    requires forall i :: 0 <= i <= j ==> key(ys[i]) == key(xs[0])
    requires forall i :: 0 <= i < |xs| - 1 ==> key(xs[1..][i]) == key(RemoveAt(ys, j)[i])
    ensures forall i :: 0 <= i < |xs| ==> key(xs[i]) == key(ys[i])
  {
    forall i | 0 < i < |xs| ensures key(xs[i]) == key(ys[i]) {
      assert xs[i] == xs[1..][i - 1];
      assert RemoveAt(ys, j)[i - 1] == if i - 1 < j then ys[i - 1] else ys[i];
    }
  }

  lemma SameFirstKey<T>(key: T -> int, xs: seq<T>, ys: seq<T>) returns (j: nat)
    requires Ascending(key, xs) && Ascending(key, ys) && multiset(xs) == multiset(ys)
    requires xs != [] && |xs| == |ys|
    ensures j < |ys| && ys[j] == xs[0]
    ensures forall i :: 0 <= i <= j ==> key(ys[i]) == key(xs[0])
  {
    assert xs[0] in multiset(ys) && ys[0] in multiset(xs);
    j :| 0 <= j < |ys| && ys[j] == xs[0];
    var k :| 0 <= k < |xs| && xs[k] == ys[0];
  }

  /** With distinct keys there is only one ascending arrangement. */
  lemma {:induction false} OneArrangement<T>(key: T -> int, xs: seq<T>, ys: seq<T>)
    requires Ascending(key, xs) && Ascending(key, ys) && multiset(xs) == multiset(ys)
    requires DistinctKeys(key, xs)
    ensures xs == ys
  {
    SameKeys(key, xs, ys);
    forall i | 0 <= i < |xs| ensures xs[i] == ys[i] {
      assert ys[i] in multiset(xs);
      var j :| 0 <= j < |xs| && xs[j] == ys[i];
      assert key(xs[j]) == key(xs[i]);
    }
  }

  // ---------------------------------------------------------------- selections

  /** The elements whose key is at least low, in their original order. */
  function KeepFrom<T>(key: T -> int, xs: seq<T>, low: int): seq<T> {
    if xs == [] then []
    else if key(xs[0]) >= low then [xs[0]] + KeepFrom(key, xs[1..], low)
    else KeepFrom(key, xs[1..], low)
  }

  lemma {:induction false} KeepAll<T>(key: T -> int, xs: seq<T>, low: int)
    requires forall i :: 0 <= i < |xs| ==> key(xs[i]) >= low
    ensures KeepFrom(key, xs, low) == xs
  {
    if xs != [] {
      KeepAll(key, xs[1..], low);
    }
  }

  lemma {:induction false} KeepInsert<T>(key: T -> int, x: T, ys: seq<T>, low: int)
    requires Ascending(key, ys)
    ensures KeepFrom(key, InsertBy(key, x, ys), low)
         == if key(x) >= low then InsertBy(key, x, KeepFrom(key, ys, low)) else KeepFrom(key, ys, low)
  {
    if ys == [] {
    } else if key(x) <= key(ys[0]) {
      assert ([x] + ys)[1..] == ys;
      if key(x) >= low {
        KeepAll(key, ys, low);
      }
    } else {
      KeepInsert(key, x, ys[1..], low);
      var zs := InsertBy(key, x, ys[1..]);
      assert ([ys[0]] + zs)[1..] == zs;
      if key(ys[0]) >= low {
        var kept := KeepFrom(key, ys[1..], low);
        assert ([ys[0]] + kept)[1..] == kept;
      }
    }
  }

  /** Selecting commutes with sorting. */
  lemma {:induction false} KeepSorted<T>(key: T -> int, xs: seq<T>, low: int)
    ensures SortBy(key, KeepFrom(key, xs, low)) == KeepFrom(key, SortBy(key, xs), low)
  {
    if xs != [] {
      KeepSorted(key, xs[1..], low);
      SortSorts(key, xs[1..]);
      KeepInsert(key, xs[0], SortBy(key, xs[1..]), low);
      if key(xs[0]) >= low {
        var kept := KeepFrom(key, xs[1..], low);
        assert ([xs[0]] + kept)[1..] == kept;
      }
    }
  }

  /** In a strictly ascending list, selecting from an element's key cuts right before it. */
  lemma {:induction false} KeepSuffix<T>(key: T -> int, xs: seq<T>, i: nat)
    requires Ascending(key, xs) && DistinctKeys(key, xs) && i < |xs|
    ensures KeepFrom(key, xs, key(xs[i])) == xs[i..]
  {
    if i == 0 {
      KeepAll(key, xs, key(xs[0]));
    } else {
      KeepSuffix(key, xs[1..], i - 1);
      assert xs[1..][i - 1..] == xs[i..];
    }
  }

  lemma {:induction false} InsertDistinct<T>(key: T -> int, x: T, ys: seq<T>)
    requires Ascending(key, ys) && DistinctKeys(key, ys)
    requires forall i :: 0 <= i < |ys| ==> key(ys[i]) != key(x)
    ensures DistinctKeys(key, InsertBy(key, x, ys))
  {
    if ys != [] && key(x) > key(ys[0]) {
      InsertDistinct(key, x, ys[1..]);
      InsertOrders(key, x, ys[1..]);
      var zs := InsertBy(key, x, ys[1..]);
      forall i | 0 <= i < |zs| ensures key(ys[0]) != key(zs[i]) {
        assert zs[i] in zs;
      }
    }
  }

  lemma {:induction false} SortKeepsDistinct<T>(key: T -> int, xs: seq<T>)
    requires DistinctKeys(key, xs)
    ensures DistinctKeys(key, SortBy(key, xs))
  {
    if xs != [] {
      var ys := SortBy(key, xs[1..]);
      SortKeepsDistinct(key, xs[1..]);
      SortSorts(key, xs[1..]);
      forall i | 0 <= i < |ys| ensures key(ys[i]) != key(xs[0]) {
        assert ys[i] in multiset(ys);
        var j :| 0 <= j < |xs[1..]| && xs[1..][j] == ys[i];
      }
      InsertDistinct(key, xs[0], ys);
    }
  }
}
