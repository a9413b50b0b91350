/** The Python list operations the sorter relies on: the slice rotation
    `s[k:] + s[:k]`, the in-place `list.reverse()` and the copy `points[:]`. */
module ListOps {

  /** The rotation `s[k:] + s[:k]`. */
  function Rotate<T>(s: seq<T>, k: nat): seq<T>
    requires k <= |s|
  {
    s[k..] + s[..k]
  }

  /** Euclidean remainder of a number below two rounds of n. */
  lemma ModWithinOneRound(a: int, n: int)
    requires 0 < n && 0 <= a < 2 * n
    ensures a % n == if a < n then a else a - n
  {
  }

  /** A rotation keeps the length and the multiset of the list and moves the
      element at position (i + k) mod n to position i. */
  lemma RotateAt<T>(s: seq<T>, k: nat)
    requires k <= |s|
    ensures |Rotate(s, k)| == |s|
    ensures multiset(Rotate(s, k)) == multiset(s)
    ensures forall i :: 0 <= i < |s| ==> Rotate(s, k)[i] == s[(i + k) % |s|]
  {
    var n := |s|;
    assert s == s[..k] + s[k..];
    assert multiset(s) == multiset(s[..k]) + multiset(s[k..]);
    forall i | 0 <= i < n
      ensures Rotate(s, k)[i] == s[(i + k) % n]
    {
      ModWithinOneRound(i + k, n);
    }
  }

  /** Rotating by 0 leaves the list as it is. */
  lemma RotateByZero<T>(s: seq<T>)
    ensures Rotate(s, 0) == s
  {
  }

  /** The list read backwards. */
  function Reversed<T>(s: seq<T>): (r: seq<T>)
    ensures |r| == |s|
  {
    if s == [] then [] else Reversed(s[1..]) + [s[0]]
  }

  /** Position k of the reversed list holds position n - 1 - k of the list. */
  lemma {:induction false} ReversedAt<T>(s: seq<T>, k: nat)
    requires k < |s|
    ensures Reversed(s)[k] == s[|s| - 1 - k]
  {
    if k < |s| - 1 {
      ReversedAt(s[1..], k);
    }
  }

  /** Reversing keeps every element and its multiplicity. */
  lemma {:induction false} ReversedMultiset<T>(s: seq<T>)
    ensures multiset(Reversed(s)) == multiset(s)
  {
    if s != [] {
      ReversedMultiset(s[1..]);
      assert s == [s[0]] + s[1..];
    }
  }

  /** Reversing a concatenation reverses the parts and swaps them. */
  lemma {:induction false} ReversedAppend<T>(a: seq<T>, b: seq<T>)
    ensures Reversed(a + b) == Reversed(b) + Reversed(a)
  {
    if a == [] {
      assert a + b == b;
    } else {
      assert (a + b)[1..] == a[1..] + b;
      ReversedAppend(a[1..], b);
    }
  }

  /** `list.reverse()`: reverses the elements of `a` in place. */
  method ReverseInPlace<T>(a: array<T>)
    modifies a
    ensures a[..] == Reversed(old(a[..]))
  {
    var n := a.Length;
    var i := 0;
    while i < n / 2
      invariant 0 <= i <= n / 2
      invariant forall k :: 0 <= k < i ==> a[k] == old(a[n - 1 - k]) && a[n - 1 - k] == old(a[k])
      invariant forall k :: i <= k < n - i ==> a[k] == old(a[k])
    {
      a[i], a[n - 1 - i] := a[n - 1 - i], a[i];
      i := i + 1;
    }
    ghost var before := old(a[..]);
    forall k | 0 <= k < n
      ensures a[..][k] == Reversed(before)[k]
    {
      ReversedAt(before, k);
    }
  }

  /** A new list holding the elements of `s` (`points[:]`, or the list built by
      slicing and concatenation). */
  method NewList<T>(s: seq<T>) returns (a: array<T>)
    ensures fresh(a)
    ensures a[..] == s
  {
    a := new T[|s|](i requires 0 <= i < |s| => s[i]);
  }
}
