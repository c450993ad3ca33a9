// Sequence vocabulary shared by the graph stores and the algorithms:
// reversal (the in-place `reverse` helpers of the root and path packages),
// distinctness, and sums of adjacency-list lengths.
module Sequences {

  /** The reverse of s. */
  function Reversed<T>(s: seq<T>): (r: seq<T>)
    ensures |r| == |s|
    ensures forall k :: 0 <= k < |s| ==> r[k] == s[|s| - 1 - k]
  {
    if s == [] then [] else Reversed(s[1..]) + [s[0]]
  }

  /** Reversing twice gives back the input: the in-place reverse is an involution. */
  lemma ReversedTwice<T>(s: seq<T>)
    ensures Reversed(Reversed(s)) == s
  {
    var r := Reversed(Reversed(s));
    assert |r| == |s|;
    forall k | 0 <= k < |s| ensures r[k] == s[k] {
      assert Reversed(s)[|s| - 1 - k] == s[k];
    }
  }

  /** Reversing a sequence with one more element at the end puts it first. */
  lemma ReversedSnoc<T>(s: seq<T>, x: T)
    ensures Reversed(s + [x]) == [x] + Reversed(s)
  {
    var l, r := Reversed(s + [x]), [x] + Reversed(s);
    assert |l| == |r|;
    forall k | 0 <= k < |l| ensures l[k] == r[k] {
      if k > 0 {
        assert l[k] == (s + [x])[|s| - k];
      }
    }
  }

  /** Swaps the elements of a from both ends towards the middle, in place,
      and hands back the same array. */
  method Reverse(a: array<int>) returns (r: array<int>)
    modifies a
    ensures r == a
    ensures a[..] == Reversed(old(a[..]))
  {
    var n, i := a.Length, 0;
    while i < n / 2
      invariant 0 <= i <= n / 2
      invariant forall k :: 0 <= k < i ==> a[k] == old(a[n - 1 - k]) && a[n - 1 - k] == old(a[k])
      invariant forall k :: i <= k < n - i ==> a[k] == old(a[k])
    {
      var opposite := n - 1 - i;
      a[i], a[opposite] := a[opposite], a[i];
      i := i + 1;
    }
    r := a;
  }

  /** A fresh array holding the elements of s (a slice's backing array). */
  method ToArray(s: seq<int>) returns (a: array<int>)
    ensures fresh(a)
    ensures a[..] == s
  {
    a := new int[|s|](i requires 0 <= i < |s| => s[i]);
  }

  /** No element occurs twice. */
  predicate Distinct<T(==)>(s: seq<T>)
  {
    forall i, j :: 0 <= i < j < |s| ==> s[i] != s[j]
  }

  /** The sum of the lengths of the lists in ss, summed from the front. */
  function SumLengths<T>(ss: seq<seq<T>>): nat
  {
    if ss == [] then 0 else SumLengths(ss[..|ss| - 1]) + |ss[|ss| - 1]|
  }

  /** Replacing one list changes the sum by the difference of the lengths. */
  lemma {:induction false} SumLengthsUpdate<T>(ss: seq<seq<T>>, k: int, t: seq<T>)
    requires 0 <= k < |ss|
    ensures SumLengths(ss[k := t]) == SumLengths(ss) - |ss[k]| + |t|
  {
    var last := |ss| - 1;
    if k == last {
      assert ss[k := t][..last] == ss[..last];
    } else {
      SumLengthsUpdate(ss[..last], k, t);
      assert ss[k := t][..last] == ss[..last][k := t];
    }
  }

  /** Extending a prefix by one list adds that list's length. */
  lemma SumLengthsPrefix<T>(ss: seq<seq<T>>, k: int)
    requires 0 <= k < |ss|
    ensures SumLengths(ss[..k + 1]) == SumLengths(ss[..k]) + |ss[k]|
  {
    assert ss[..k + 1][..k] == ss[..k];
  }

  /** No single list is longer than all of them together. */
  lemma {:induction false} SumLengthsBound<T>(ss: seq<seq<T>>, k: int)
    requires 0 <= k < |ss|
    ensures |ss[k]| <= SumLengths(ss)
  {
    if k < |ss| - 1 {
      SumLengthsBound(ss[..|ss| - 1], k);
    }
  }

  /** Every list is empty exactly when the sum of the lengths is zero. */
  lemma {:induction false} SumLengthsZero<T>(ss: seq<seq<T>>)
    ensures SumLengths(ss) == 0 <==> forall v :: 0 <= v < |ss| ==> ss[v] == []
  {
    if ss != [] {
      SumLengthsZero(ss[..|ss| - 1]);
      assert forall v :: 0 <= v < |ss| - 1 ==> ss[..|ss| - 1][v] == ss[v];
    }
  }
}
