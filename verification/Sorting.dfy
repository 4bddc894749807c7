/** The exchange sort that reassembly and message search both run in place. */
module Sorting {
  ghost predicate Sorted<T>(s: seq<T>, key: T -> int) {
    forall i, j | 0 <= i < j < |s| :: key(s[i]) <= key(s[j])
  }

  /** The first n elements are in order and no larger than any later one. */
  ghost predicate Settled<T>(s: seq<T>, key: T -> int, n: nat) {
    forall i, j | 0 <= i < n && i < j < |s| :: key(s[i]) <= key(s[j])
  }

  /** The element at i is no larger than those between i and j. */
  ghost predicate Smallest<T>(s: seq<T>, key: T -> int, i: nat, j: nat)
    requires i < |s|
  {
    forall q | i < q < j && q < |s| :: key(s[i]) <= key(s[q])
  }

  function Swap<T>(s: seq<T>, i: nat, j: nat): seq<T>
    requires i < j < |s|
  {
    s[i := s[j]][j := s[i]]
  }

  lemma SwapSettles<T>(s: seq<T>, key: T -> int, i: nat, j: nat)
    requires i < j < |s| && key(s[i]) > key(s[j])
    requires Settled(s, key, i) && Smallest(s, key, i, j)
    ensures multiset(Swap(s, i, j)) == multiset(s)
    ensures Settled(Swap(s, i, j), key, i) && Smallest(Swap(s, i, j), key, i, j + 1)
  {
    var t := Swap(s, i, j);
    forall p, q | 0 <= p < i && p < q < |t| ensures key(t[p]) <= key(t[q]) {
      assert t[p] == s[p] && t[q] == s[if q == i then j else if q == j then i else q];
    }
  }

  method ExchangeSort<T>(a: array<T>, key: T -> int)
    modifies a
    ensures multiset(a[..]) == multiset(old(a[..]))
    ensures Sorted(a[..], key)
  {
    var i := 0;
    while i < a.Length - 1
      invariant 0 <= i <= a.Length
      invariant multiset(a[..]) == multiset(old(a[..]))
      invariant Settled(a[..], key, i)
    {
      var j := i + 1;
      while j < a.Length
        invariant i < j <= a.Length
        invariant multiset(a[..]) == multiset(old(a[..]))
        invariant Settled(a[..], key, i) && Smallest(a[..], key, i, j)
      {
        if key(a[i]) > key(a[j]) {
          SwapSettles(a[..], key, i, j);
          ghost var swapped := Swap(a[..], i, j);
          a[i], a[j] := a[j], a[i];
          assert a[..] == swapped;
        }
        j := j + 1;
      }
      i := i + 1;
    }
  }
}
