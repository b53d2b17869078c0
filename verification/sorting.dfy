/** `Array.prototype.sort` with a comparator of the form
    `(a, b) => key(a) - key(b)`: a stable sort by an integer key. It is
    modelled as insertion sort, each element being placed after every
    element already placed whose key is not larger than its own. */
module Sorting {

  ghost predicate SortedBy<T>(s: seq<T>, key: T -> int) {
    forall i, j :: 0 <= i < j < |s| ==> key(s[i]) <= key(s[j])
  }

  /** Every key in `s` is at least `b`. */
  ghost predicate KeysAtLeast<T>(s: seq<T>, key: T -> int, b: int) {
    forall i :: 0 <= i < |s| ==> b <= key(s[i])
  }

  /** Places `x` after the longest prefix of `s` whose keys are at most `key(x)`. */
  function Insert<T>(x: T, s: seq<T>, key: T -> int): (r: seq<T>)
    ensures |r| == |s| + 1
    ensures multiset(r) == multiset(s) + multiset{x}
  {
    if s == [] then [x]
    else if key(x) < key(s[0]) then [x] + s
    else
      assert s == [s[0]] + s[1..];
      [s[0]] + Insert(x, s[1..], key)
  }

  lemma {:induction false} InsertKeysAtLeast<T>(x: T, s: seq<T>, key: T -> int, b: int)
    requires KeysAtLeast(s, key, b) && b <= key(x)
    ensures KeysAtLeast(Insert(x, s, key), key, b)
    decreases |s|
  {
    if s != [] && key(s[0]) <= key(x) {
      InsertKeysAtLeast(x, s[1..], key, b);
    }
  }

  /** Inserting into a sorted list keeps it sorted. */
  lemma {:induction false} InsertSorted<T>(x: T, s: seq<T>, key: T -> int)
    requires SortedBy(s, key)
    ensures SortedBy(Insert(x, s, key), key)
    decreases |s|
  {
    if s != [] && key(s[0]) <= key(x) {
      InsertSorted(x, s[1..], key);
      InsertKeysAtLeast(x, s[1..], key, key(s[0]));
    }
  }

  /** The sorted permutation of `s`, ties kept in their input order. */
  function SortBy<T>(s: seq<T>, key: T -> int): (r: seq<T>)
    ensures SortedBy(r, key)
    ensures multiset(r) == multiset(s)
  {
    if s == [] then []
    else
      var init := SortBy(s[..|s| - 1], key);
      InsertSorted(s[|s| - 1], init, key);
      assert s == s[..|s| - 1] + [s[|s| - 1]];
      Insert(s[|s| - 1], init, key)
  }

  /** The elements of `s` whose key is `v`, in their order in `s`. */
  function WithKey<T>(s: seq<T>, key: T -> int, v: int): seq<T> {
    if s == [] then []
    else (if key(s[0]) == v then [s[0]] else []) + WithKey(s[1..], key, v)
  }

  lemma {:induction false} WithKeyAppend<T>(a: seq<T>, b: seq<T>, key: T -> int, v: int)
    ensures WithKey(a + b, key, v) == WithKey(a, key, v) + WithKey(b, key, v)
    decreases |a|
  {
    if a == [] {
      assert a + b == b;
    } else {
      var head := if key(a[0]) == v then [a[0]] else [];
      var ab := a + b;
      assert ab[0] == a[0] && ab[1..] == a[1..] + b;
      assert WithKey(ab, key, v) == head + WithKey(a[1..] + b, key, v);
      WithKeyAppend(a[1..], b, key, v);
      assert WithKey(a, key, v) == head + WithKey(a[1..], key, v);
      assert head + (WithKey(a[1..], key, v) + WithKey(b, key, v))
          == (head + WithKey(a[1..], key, v)) + WithKey(b, key, v);
    }
  }

  /** No element has a key below the keys of a list all of whose keys are larger. */
  lemma {:induction false} WithKeyNone<T>(s: seq<T>, key: T -> int, v: int)
    requires KeysAtLeast(s, key, v + 1)
    ensures WithKey(s, key, v) == []
    decreases |s|
  {
    if s != [] {
      WithKeyNone(s[1..], key, v);
    }
  }

  lemma WithKeyCons<T>(a: T, t: seq<T>, key: T -> int, v: int)
    ensures WithKey([a] + t, key, v) == (if key(a) == v then [a] else []) + WithKey(t, key, v)
  {
    assert ([a] + t)[0] == a && ([a] + t)[1..] == t;
  }

  /** Inserting into a sorted list puts `x` after every element of equal key. */
  lemma {:induction false} InsertWithKey<T>(x: T, s: seq<T>, key: T -> int, v: int)
    requires SortedBy(s, key)
    ensures WithKey(Insert(x, s, key), key, v) == WithKey(s, key, v) + (if key(x) == v then [x] else [])
    decreases |s|
  {
    if s == [] || key(x) < key(s[0]) {
      InsertInFront(x, s, key, v);
    } else {
      var rest := s[1..];
      SortedTail(s, key);
      InsertWithKey(x, rest, key, v);
      InsertBehindUnfold(x, s, key);
      WithKeyConsTail(s[0], Insert(x, rest, key), rest, if key(x) == v then [x] else [], key, v);
      assert [s[0]] + rest == s;
    }
  }

  /** `x` inserted in front of larger keys is the last of its key. */
  lemma InsertInFront<T>(x: T, s: seq<T>, key: T -> int, v: int)
    requires SortedBy(s, key) && (s == [] || key(x) < key(s[0]))
    ensures WithKey(Insert(x, s, key), key, v) == WithKey(s, key, v) + (if key(x) == v then [x] else [])
  {
    assert Insert(x, s, key) == [x] + s;
    WithKeyCons(x, s, key, v);
    if key(x) == v {
      assert KeysAtLeast(s, key, v + 1) by {
        forall i | 0 <= i < |s| ensures v + 1 <= key(s[i]) {
          assert i == 0 || key(s[0]) <= key(s[i]);
        }
      }
      WithKeyNone(s, key, v);
    }
  }

  /** Putting the same element in front of two lists whose elements of
      key `v` differ by a tail keeps that difference. */
  lemma WithKeyConsTail<T>(a: T, r: seq<T>, rest: seq<T>, tail: seq<T>, key: T -> int, v: int)
    requires WithKey(r, key, v) == WithKey(rest, key, v) + tail
    ensures WithKey([a] + r, key, v) == WithKey([a] + rest, key, v) + tail
  {
    WithKeyCons(a, r, key, v);
    WithKeyCons(a, rest, key, v);
  }

  lemma InsertBehindUnfold<T>(x: T, s: seq<T>, key: T -> int)
    requires s != [] && key(s[0]) <= key(x)
    ensures Insert(x, s, key) == [s[0]] + Insert(x, s[1..], key)
  {
  }

  lemma SortedTail<T>(s: seq<T>, key: T -> int)
    requires s != [] && SortedBy(s, key)
    ensures SortedBy(s[1..], key)
  {
    var rest := s[1..];
    forall i, j | 0 <= i < j < |rest| ensures key(rest[i]) <= key(rest[j]) {
      assert rest[i] == s[i + 1] && rest[j] == s[j + 1];
    }
  }

  /** The sort is stable: the elements of each key come out in the order
      they went in. */
  lemma SortByStable<T>(s: seq<T>, key: T -> int)
    ensures forall v :: WithKey(SortBy(s, key), key, v) == WithKey(s, key, v)
  {
    forall v ensures WithKey(SortBy(s, key), key, v) == WithKey(s, key, v) {
      SortByStableAt(s, key, v);
    }
  }

  lemma {:induction false} SortByStableAt<T>(s: seq<T>, key: T -> int, v: int)
    ensures WithKey(SortBy(s, key), key, v) == WithKey(s, key, v)
    decreases |s|
  {
    if s != [] {
      SortByStableAt(s[..|s| - 1], key, v);
      SortByStep(s, key, v);
    }
  }

  /** One step of the stability proof: the last element joins its key's
      elements at the end, on both sides. */
  lemma SortByStep<T>(s: seq<T>, key: T -> int, v: int)
    requires s != []
    ensures var init, last := s[..|s| - 1], s[|s| - 1];
      var tail := if key(last) == v then [last] else [];
      WithKey(SortBy(s, key), key, v) == WithKey(SortBy(init, key), key, v) + tail &&
      WithKey(s, key, v) == WithKey(init, key, v) + tail
  {
    var init, last := s[..|s| - 1], s[|s| - 1];
    var sorted := SortBy(init, key);
    SortByUnfold(s, key);
    InsertWithKey(last, sorted, key, v);
    WithKeyLast(s, key, v);
  }

  lemma WithKeyLast<T>(s: seq<T>, key: T -> int, v: int)
    requires s != []
    ensures WithKey(s, key, v) == WithKey(s[..|s| - 1], key, v) + (if key(s[|s| - 1]) == v then [s[|s| - 1]] else [])
  {
    var init, last := s[..|s| - 1], s[|s| - 1];
    WithKeySnoc(init, last, key, v);
    assert init + [last] == s;
  }

  lemma WithKeySnoc<T>(init: seq<T>, last: T, key: T -> int, v: int)
    ensures WithKey(init + [last], key, v) == WithKey(init, key, v) + (if key(last) == v then [last] else [])
  {
    WithKeyAppend(init, [last], key, v);
    assert [last][1..] == [];
  }

  /** Inserting an element whose key is at least every key present appends it. */
  lemma {:induction false} InsertLast<T>(x: T, s: seq<T>, key: T -> int)
    requires forall i :: 0 <= i < |s| ==> key(s[i]) <= key(x)
    ensures Insert(x, s, key) == s + [x]
    decreases |s|
  {
    if s != [] {
      InsertLast(x, s[1..], key);
      assert s == [s[0]] + s[1..];
    }
  }

  /** Sorting a list that is already in key order leaves it unchanged. */
  lemma {:induction false} SortBySortedIsIdentity<T>(s: seq<T>, key: T -> int)
    requires SortedBy(s, key)
    ensures SortBy(s, key) == s
    decreases |s|
  {
    if s != [] {
      var init, last := s[..|s| - 1], s[|s| - 1];
      SortedSplit(s, key);
      SortBySortedIsIdentity(init, key);
      InsertLast(last, init, key);
      SortByUnfold(s, key);
      assert init + [last] == s;
    }
  }

  /** A sorted non-empty list: its front is sorted and its last key is the largest. */
  lemma SortedSplit<T>(s: seq<T>, key: T -> int)
    requires s != [] && SortedBy(s, key)
    ensures SortedBy(s[..|s| - 1], key)
    ensures forall i :: 0 <= i < |s| - 1 ==> key(s[i]) <= key(s[|s| - 1])
  {
    var init := s[..|s| - 1];
    forall i, j | 0 <= i < j < |init| ensures key(init[i]) <= key(init[j]) {
      assert init[i] == s[i] && init[j] == s[j];
    }
  }

  /** One step of `SortBy`: the last element is inserted into the sorted front. */
  lemma SortByUnfold<T>(s: seq<T>, key: T -> int)
    requires s != []
    ensures SortBy(s, key) == Insert(s[|s| - 1], SortBy(s[..|s| - 1], key), key)
  {
  }
}
