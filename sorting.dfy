/** A stable sort by an integer key, modelling `Array.prototype.sort` with a
    comparator of the form `(a, b) => key(a) - key(b)`. Since ECMAScript 2019
    that sort is stable: elements the comparator calls equal keep their order.
    It is written here as an insertion sort that puts each new element after
    every element whose key is not larger. */
module Sorting {

  /** Keys never decrease from left to right. */
  ghost predicate SortedBy<T>(s: seq<T>, key: T -> int) {
    forall i, j | 0 <= i < j < |s| :: key(s[i]) <= key(s[j])
  }

  /** The elements of `s` whose key is `k`, in their order in `s`. */
  function WithKey<T>(s: seq<T>, key: T -> int, k: int): seq<T> {
    if s == [] then [] else Part(s[0], key, k) + WithKey(s[1..], key, k)
  }

  /** `[x]` when `x` has key `k`, otherwise empty. */
  function Part<T>(x: T, key: T -> int, k: int): seq<T> {
    if key(x) == k then [x] else []
  }

  /** `t` with `x` inserted after its longest prefix of keys not above `x`'s. */
  function Insert<T>(t: seq<T>, x: T, key: T -> int): (r: seq<T>)
    ensures |r| == |t| + 1
  {
    if t == [] then [x]
    else if key(t[0]) <= key(x) then [t[0]] + Insert(t[1..], x, key)
    else [x] + t
  }

  /** Inserting adds exactly `x` and loses nothing. */
  lemma {:induction false} InsertPerm<T>(t: seq<T>, x: T, key: T -> int)
    ensures multiset(Insert(t, x, key)) == multiset(t) + multiset{x}
  {
    if t != [] && key(t[0]) <= key(x) {
      InsertPerm(t[1..], x, key);
      assert t == [t[0]] + t[1..];
    }
  }

  /** A bound below every key of `t` and `x` is below every key of the
      insertion. */
  lemma {:induction false} InsertAbove<T>(t: seq<T>, x: T, key: T -> int, b: int)
    requires forall i | 0 <= i < |t| :: b <= key(t[i])
    requires b <= key(x)
    ensures forall i | 0 <= i < |Insert(t, x, key)| :: b <= key(Insert(t, x, key)[i])
  {
    if t != [] && key(t[0]) <= key(x) {
      InsertAbove(t[1..], x, key, b);
      var rest := Insert(t[1..], x, key);
      assert forall i | 1 <= i < |rest| + 1 :: ([t[0]] + rest)[i] == rest[i - 1];
    }
  }

  /** Sortedness of a sequence with a first element. */
  lemma SortedCons<T>(x: T, t: seq<T>, key: T -> int)
    requires SortedBy(t, key)
    requires forall i | 0 <= i < |t| :: key(x) <= key(t[i])
    ensures SortedBy([x] + t, key)
  {
    var r := [x] + t;
    forall i, j | 0 <= i < j < |r| ensures key(r[i]) <= key(r[j]) {
      assert r[j] == t[j - 1];
      if i > 0 {
        assert r[i] == t[i - 1];
      }
    }
  }

  /** Insertion keeps a sorted sequence sorted. */
  lemma {:induction false} InsertSorted<T>(t: seq<T>, x: T, key: T -> int)
    requires SortedBy(t, key)
    ensures SortedBy(Insert(t, x, key), key)
  {
    if t == [] {
    } else if key(t[0]) <= key(x) {
      SortedTail(t, key);
      InsertSorted(t[1..], x, key);
      InsertAbove(t[1..], x, key, key(t[0]));
      SortedCons(t[0], Insert(t[1..], x, key), key);
    } else {
      SortedTail(t, key);
      SortedCons(x, t, key);
    }
  }

  /** The sorted permutation of `s`: each element is inserted in turn. */
  function Sort<T>(s: seq<T>, key: T -> int): (r: seq<T>)
    ensures |r| == |s|
    ensures multiset(r) == multiset(s)
    ensures SortedBy(r, key)
  {
    if s == [] then []
    else
      assert s == s[..|s| - 1] + [s[|s| - 1]];
      var sorted := Sort(s[..|s| - 1], key);
      InsertSorted(sorted, s[|s| - 1], key);
      InsertPerm(sorted, s[|s| - 1], key);
      Insert(sorted, s[|s| - 1], key)
  }

  lemma {:induction false} WithKeyConcat<T>(a: seq<T>, b: seq<T>, key: T -> int, k: int)
    ensures WithKey(a + b, key, k) == WithKey(a, key, k) + WithKey(b, key, k)
  {
    if a != [] {
      assert (a + b)[1..] == a[1..] + b;
      WithKeyConcat(a[1..], b, key, k);
    } else {
      assert a + b == b;
    }
  }

  lemma {:induction false} WithKeyNone<T>(s: seq<T>, key: T -> int, k: int)
    requires forall i | 0 <= i < |s| :: key(s[i]) != k
    ensures WithKey(s, key, k) == []
  {
    if s != [] {
      WithKeyNone(s[1..], key, k);
    }
  }

  lemma SortedTail<T>(t: seq<T>, key: T -> int)
    requires t != [] && SortedBy(t, key)
    ensures SortedBy(t[1..], key)
    ensures forall i | 0 <= i < |t| :: key(t[0]) <= key(t[i])
  {
  }

  lemma WithKeyCons<T>(x: T, t: seq<T>, key: T -> int, k: int)
    ensures WithKey([x] + t, key, k) == Part(x, key, k) + WithKey(t, key, k)
  {
    assert ([x] + t)[1..] == t;
  }

  /** Inserting into a sorted sequence puts `x` after every element with the
      same key. */
  lemma {:induction false} InsertWithKey<T>(t: seq<T>, x: T, key: T -> int, k: int)
    requires SortedBy(t, key)
    ensures WithKey(Insert(t, x, key), key, k) == WithKey(t, key, k) + Part(x, key, k)
  {
    if t == [] {
      WithKeyCons(x, [], key, k);
      assert Insert(t, x, key) == [x] + [];
    } else if key(t[0]) <= key(x) {
      SortedTail(t, key);
      InsertWithKey(t[1..], x, key, k);
      InsertAfterHeadWithKey(t, x, key, k);
    } else {
      InsertFirstWithKey(t, x, key, k);
    }
  }

  /** The inductive step of `InsertWithKey` when `x` goes after the head. */
  lemma InsertAfterHeadWithKey<T>(t: seq<T>, x: T, key: T -> int, k: int)
    requires t != [] && key(t[0]) <= key(x)
    requires WithKey(Insert(t[1..], x, key), key, k) == WithKey(t[1..], key, k) + Part(x, key, k)
    ensures WithKey(Insert(t, x, key), key, k) == WithKey(t, key, k) + Part(x, key, k)
  {
    var rest := Insert(t[1..], x, key);
    assert Insert(t, x, key) == [t[0]] + rest;
    assert t == [t[0]] + t[1..];
    WithKeyCons(t[0], rest, key, k);
    WithKeyCons(t[0], t[1..], key, k);
    var p, w, q := Part(t[0], key, k), WithKey(t[1..], key, k), Part(x, key, k);
    assert p + (w + q) == (p + w) + q;
  }

  /** When `x` goes before every element of a sorted `t`, no element of `t`
      shares its key, so `x` ends its key's elements. */
  lemma InsertFirstWithKey<T>(t: seq<T>, x: T, key: T -> int, k: int)
    requires t != [] && SortedBy(t, key) && key(x) < key(t[0])
    ensures WithKey(Insert(t, x, key), key, k) == WithKey(t, key, k) + Part(x, key, k)
  {
    assert Insert(t, x, key) == [x] + t;
    WithKeyCons(x, t, key, k);
    if key(x) == k {
      SortedTail(t, key);
      WithKeyNone(t, key, k);
      assert WithKey(t, key, k) == [];
    } else {
      assert Part(x, key, k) == [];
    }
  }

  /** Stability: for every key, the elements with that key appear in the
      sorted result in the same order as in the input. */
  lemma {:induction false} SortStable<T>(s: seq<T>, key: T -> int, k: int)
    ensures WithKey(Sort(s, key), key, k) == WithKey(s, key, k)
  {
    if s != [] {
      var init, last := s[..|s| - 1], s[|s| - 1];
      SortStable(init, key, k);
      InsertWithKey(Sort(init, key), last, key, k);
      WithKeyConcat(init, [last], key, k);
      WithKeyCons(last, [], key, k);
      assert [last] + [] == [last];
      assert s == init + [last];
      calc {
        WithKey(Sort(s, key), key, k);
        WithKey(Insert(Sort(init, key), last, key), key, k);
        WithKey(Sort(init, key), key, k) + Part(last, key, k);
        WithKey(init, key, k) + WithKey([last], key, k);
        WithKey(s, key, k);
      }
    }
  }

  /** Inserting an element whose key is at least every key appends it. */
  lemma {:induction false} InsertLast<T>(t: seq<T>, x: T, key: T -> int)
    requires forall i | 0 <= i < |t| :: key(t[i]) <= key(x)
    ensures Insert(t, x, key) == t + [x]
  {
    if t != [] {
      InsertLast(t[1..], x, key);
      assert t == [t[0]] + t[1..];
    }
  }

  /** Sorting a sequence that is already sorted leaves it as it is. */
  lemma {:induction false} SortOfSorted<T>(s: seq<T>, key: T -> int)
    requires SortedBy(s, key)
    ensures Sort(s, key) == s
  {
    if s != [] {
      var init := s[..|s| - 1];
      assert SortedBy(init, key);
      SortOfSorted(init, key);
      InsertLast(init, s[|s| - 1], key);
    }
  }
}
