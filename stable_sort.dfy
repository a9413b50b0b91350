/** Python's `sorted(xs, key=k)` with `reverse=False`: an ascending sort by a
    real-valued key that is stable (elements with equal keys keep the order
    they had in the input). Modelled as a stable insertion sort. */
module StableSort {
  import opened ListOps

  /** The keys of `s` never decrease from left to right. */
  predicate SortedByKey<T>(s: seq<T>, key: T -> real)
  {
    forall i, j :: 0 <= i < j < |s| ==> key(s[i]) <= key(s[j])
  }

  /** The keys of `s` never increase from left to right. */
  predicate DescendingByKey<T>(s: seq<T>, key: T -> real)
  {
    forall i, j :: 0 <= i < j < |s| ==> key(s[i]) >= key(s[j])
  }

  /** `[y]` when the key of `y` is `k`, otherwise the empty list. */
  function IfKey<T>(y: T, key: T -> real, k: real): seq<T>
  {
    if key(y) == k then [y] else []
  }

  /** The elements of `s` whose key is `k`, in the order they appear in `s`. */
  function WithKey<T>(s: seq<T>, key: T -> real, k: real): seq<T>
  {
    if s == [] then [] else IfKey(s[0], key, k) + WithKey(s[1..], key, k)
  }

  /** Places `x` just before the first element of `s` whose key is not
      smaller than its own. */
  function Insert<T>(x: T, s: seq<T>, key: T -> real): (r: seq<T>)
    ensures |r| == |s| + 1
    ensures multiset(r) == multiset(s) + multiset{x}
  {
    if s == [] then [x]
    else if key(x) <= key(s[0]) then [x] + s
    else
      assert s == [s[0]] + s[1..];
      [s[0]] + Insert(x, s[1..], key)
  }

  /** `sorted(s, key=key)`. */
  function SortByKey<T>(s: seq<T>, key: T -> real): (r: seq<T>)
    ensures |r| == |s|
    ensures multiset(r) == multiset(s)
  {
    if s == [] then []
    else
      assert s == [s[0]] + s[1..];
      Insert(s[0], SortByKey(s[1..], key), key)
  }

  /** Putting `y` in front of a sorted list whose keys are all at least
      `key(y)` gives a sorted list. */
  lemma SortedCons<T>(y: T, t: seq<T>, key: T -> real)
    requires SortedByKey(t, key)
    requires forall j :: 0 <= j < |t| ==> key(y) <= key(t[j])
    ensures SortedByKey([y] + t, key)
  {
  }

  /** A lower bound of the keys of `x` and of `s` bounds the keys after the
      insertion. */
  lemma {:induction false} InsertLowerBound<T>(x: T, s: seq<T>, key: T -> real, b: real)
    requires b <= key(x)
    requires forall i :: 0 <= i < |s| ==> b <= key(s[i])
    ensures forall j :: 0 <= j < |Insert(x, s, key)| ==> b <= key(Insert(x, s, key)[j])
  {
    if s == [] {
    } else if key(x) <= key(s[0]) {
      var r := [x] + s;
      forall j | 0 <= j < |r|
        ensures b <= key(r[j])
      {
        if j > 0 {
          assert r[j] == s[j - 1];
        }
      }
    } else {
      var t := Insert(x, s[1..], key);
      var r := [s[0]] + t;
      InsertLowerBound(x, s[1..], key, b);
      forall j | 0 <= j < |r|
        ensures b <= key(r[j])
      {
        if j > 0 {
          assert r[j] == t[j - 1];
        }
      }
    }
  }

  lemma {:induction false} InsertSorted<T>(x: T, s: seq<T>, key: T -> real)
    requires SortedByKey(s, key)
    ensures SortedByKey(Insert(x, s, key), key)
  {
    if s == [] {
    } else if key(x) <= key(s[0]) {
      SortedCons(x, s, key);
    } else {
      var rest := s[1..];
      assert SortedByKey(rest, key) by {
        forall i, j | 0 <= i < j < |rest|
          ensures key(rest[i]) <= key(rest[j])
        {
          assert rest[i] == s[i + 1] && rest[j] == s[j + 1];
        }
      }
      forall i | 0 <= i < |rest|
        ensures key(s[0]) <= key(rest[i])
      {
        assert rest[i] == s[i + 1];
      }
      InsertSorted(x, rest, key);
      InsertLowerBound(x, rest, key, key(s[0]));
      SortedCons(s[0], Insert(x, rest, key), key);
    }
  }

  /** The result of the sort is in ascending key order. */
  lemma {:induction false} SortByKeySorted<T>(s: seq<T>, key: T -> real)
    ensures SortedByKey(SortByKey(s, key), key)
  {
    if s != [] {
      SortByKeySorted(s[1..], key);
      InsertSorted(s[0], SortByKey(s[1..], key), key);
    }
  }

  lemma {:induction false} WithKeyAppend<T>(a: seq<T>, b: seq<T>, key: T -> real, k: real)
    ensures WithKey(a + b, key, k) == WithKey(a, key, k) + WithKey(b, key, k)
  {
    if a == [] {
      assert a + b == b;
    } else {
      var head := IfKey(a[0], key, k);
      assert (a + b)[0] == a[0] && (a + b)[1..] == a[1..] + b;
      calc {
        WithKey(a + b, key, k);
        head + WithKey(a[1..] + b, key, k);
        { WithKeyAppend(a[1..], b, key, k); }
        head + (WithKey(a[1..], key, k) + WithKey(b, key, k));
        (head + WithKey(a[1..], key, k)) + WithKey(b, key, k);
      }
    }
  }

  lemma WithKeyCons<T>(y: T, t: seq<T>, key: T -> real, k: real)
    ensures WithKey([y] + t, key, k) == IfKey(y, key, k) + WithKey(t, key, k)
  {
  }

  /** Inserting `x` puts it in front of every element that has the same key. */
  lemma {:induction false} InsertWithKey<T>(x: T, s: seq<T>, key: T -> real, k: real)
    ensures WithKey(Insert(x, s, key), key, k) == IfKey(x, key, k) + WithKey(s, key, k)
  {
    if s == [] {
    } else if key(x) <= key(s[0]) {
      WithKeyCons(x, s, key, k);
    } else {
      var hx, h0 := IfKey(x, key, k), IfKey(s[0], key, k);
      var t := Insert(x, s[1..], key);
      assert Insert(x, s, key) == [s[0]] + t;
      InsertWithKey(x, s[1..], key, k);
      WithKeyCons(s[0], t, key, k);
      var w := WithKey(s[1..], key, k);
      assert WithKey(s, key, k) == h0 + w;
      if key(x) == k {
        assert h0 == [];
        assert h0 + (hx + w) == hx + w && h0 + w == w;
      } else {
        assert hx == [];
        assert hx + w == w && hx + (h0 + w) == h0 + w;
      }
    }
  }

  /** The sort is stable: for every key value, the elements carrying it appear
      in the result in the same relative order as in the input. */
  lemma {:induction false} SortByKeyStable<T>(s: seq<T>, key: T -> real, k: real)
    ensures WithKey(SortByKey(s, key), key, k) == WithKey(s, key, k)
  {
    if s != [] {
      SortByKeyStable(s[1..], key, k);
      InsertWithKey(s[0], SortByKey(s[1..], key), key, k);
    }
  }

  /** No two different elements of `s` share a key. */
  predicate KeyInjective<T(==)>(s: seq<T>, key: T -> real)
  {
    forall x, y :: x in s && y in s && key(x) == key(y) ==> x == y
  }

  /** Dropping the first element of a sorted list leaves a sorted list. */
  lemma SortedTail<T>(s: seq<T>, key: T -> real)
    requires s != [] && SortedByKey(s, key)
    ensures SortedByKey(s[1..], key)
  {
  }

  /** Two sorted lists holding the same elements start with the same element
      when no two different elements share a key. */
  lemma SortedSameHead<T>(s: seq<T>, t: seq<T>, key: T -> real)
    requires s != [] && SortedByKey(s, key) && SortedByKey(t, key)
    requires multiset(s) == multiset(t)
    requires KeyInjective(s, key)
    ensures t != [] && s[0] == t[0]
  {
    assert s[0] in multiset(t);
    var j :| 0 <= j < |t| && t[j] == s[0];
    assert t[0] in multiset(s);
    var i :| 0 <= i < |s| && s[i] == t[0];
    assert key(s[0]) <= key(s[i]) && key(t[0]) <= key(t[j]);
  }

  /** Two lists with the same multiset and the same first element have tails
      with the same multiset. */
  lemma MultisetTail<T>(s: seq<T>, t: seq<T>)
    requires s != [] && t != [] && s[0] == t[0]
    requires multiset(s) == multiset(t)
    ensures multiset(s[1..]) == multiset(t[1..])
  {
    assert s == [s[0]] + s[1..] && t == [t[0]] + t[1..];
    assert multiset(s) == multiset{s[0]} + multiset(s[1..]);
    assert multiset(t) == multiset{t[0]} + multiset(t[1..]);
    forall z
      ensures multiset(s[1..])[z] == multiset(t[1..])[z]
    {
      assert multiset(s)[z] == multiset{s[0]}[z] + multiset(s[1..])[z];
      assert multiset(t)[z] == multiset{t[0]}[z] + multiset(t[1..])[z];
    }
  }

  lemma KeyInjectiveTail<T>(s: seq<T>, key: T -> real)
    requires s != [] && KeyInjective(s, key)
    ensures KeyInjective(s[1..], key)
  {
  }

  /** When no two different elements share a key, the ascending order is
      unique: two sorted lists holding the same elements are equal. */
  lemma {:induction false} SortedUnique<T>(s: seq<T>, t: seq<T>, key: T -> real)
    requires SortedByKey(s, key) && SortedByKey(t, key)
    requires multiset(s) == multiset(t)
    requires KeyInjective(s, key)
    ensures s == t
    decreases |s|
  {
    if s == [] {
      assert |t| == |multiset(t)| == 0;
    } else {
      SortedSameHead(s, t, key);
      var s', t' := s[1..], t[1..];
      MultisetTail(s, t);
      SortedTail(s, key);
      SortedTail(t, key);
      KeyInjectiveTail(s, key);
      SortedUnique(s', t', key);
    }
  }

  /** Reading a list backwards reads the elements of each key backwards. */
  lemma {:induction false} WithKeyReversed<T>(s: seq<T>, key: T -> real, k: real)
    ensures WithKey(Reversed(s), key, k) == Reversed(WithKey(s, key, k))
  {
    if s != [] {
      var head := IfKey(s[0], key, k);
      WithKeyReversed(s[1..], key, k);
      WithKeyAppend(Reversed(s[1..]), [s[0]], key, k);
      ReversedAppend(head, WithKey(s[1..], key, k));
      assert Reversed(head) == head;
    }
  }

  /** Reversing a list sorted ascending gives a list sorted descending. */
  lemma ReversedSortedDescends<T>(s: seq<T>, key: T -> real)
    requires SortedByKey(s, key)
    ensures DescendingByKey(Reversed(s), key)
  {
    var r := Reversed(s);
    forall i, j | 0 <= i < j < |r|
      ensures key(r[i]) >= key(r[j])
    {
      ReversedAt(s, i);
      ReversedAt(s, j);
    }
  }
}
