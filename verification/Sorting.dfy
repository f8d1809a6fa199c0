/** Sorting by an integer key, as slices.Sort and slices.SortFunc promise it: the same
    elements, in ascending order of their keys. The order of elements with equal keys is
    left open, as slices.SortFunc leaves it. The k-th smallest key is defined without
    sorting, by counting. */
module Sorting {

  /* ---- Rearrangements ---- */

  // p lists every index below n once.
  ghost predicate IsPermutation(p: seq<int>, n: int) {
    && |p| == n
    && (forall k :: 0 <= k < n ==> 0 <= p[k] < n)
    && (forall j, k :: 0 <= j < k < n ==> p[j] != p[k])
  }

  // t holds the elements of s, each once, in the order p.
  ghost predicate Rearranges<T(!new)>(p: seq<int>, s: seq<T>, t: seq<T>) {
    && |s| == |t| && IsPermutation(p, |s|)
    && forall k :: 0 <= k < |t| ==> t[k] == s[p[k]]
  }

  ghost predicate Ascending<T(!new)>(s: seq<T>, key: T -> int) {
    forall i, j :: 0 <= i <= j < |s| ==> key(s[i]) <= key(s[j])
  }

  // Keys ascend up to position n, but the one at j may be smaller than those before it.
  ghost predicate AscendingBut<T(!new)>(s: seq<T>, key: T -> int, n: int, j: int)
    requires n <= |s|
  {
    && (forall i, k :: 0 <= i < k < n && k != j ==> key(s[i]) <= key(s[k]))
  }

  method SwapBack<T(!new)>(a: array<T>, i: int, ghost s: seq<T>, ghost p0: seq<int>) returns (ghost p: seq<int>)
    requires 0 < i < a.Length && Rearranges(p0, s, a[..])
    modifies a
    ensures a[..] == old(a[..])[i - 1 := old(a[i])][i := old(a[i - 1])]
    ensures Rearranges(p, s, a[..])
  {
    p := p0[i - 1 := p0[i]][i := p0[i - 1]];
    a[i - 1], a[i] := a[i], a[i - 1];
  }

  lemma SwapKeeps<T(!new)>(s: seq<T>, key: T -> int, n: int, j: int)
    requires 0 < j < n <= |s| && AscendingBut(s, key, n, j) && key(s[j]) < key(s[j - 1])
    ensures AscendingBut(s[j - 1 := s[j]][j := s[j - 1]], key, n, j - 1)
  {
  }

  lemma InPlace<T(!new)>(s: seq<T>, key: T -> int, n: int, j: int)
    requires 0 <= j < n <= |s| && AscendingBut(s, key, n, j)
    requires j == 0 || key(s[j - 1]) <= key(s[j])
    ensures AscendingBut(s, key, n, -1)
  {
    forall i | 0 <= i < j ensures key(s[i]) <= key(s[j]) {
      assert i == j - 1 || key(s[i]) <= key(s[j - 1]);
    }
  }

  // Moves the element at i down to its place among those before it.
  method Settle<T(!new)>(a: array<T>, key: T -> int, i: int, ghost s: seq<T>, ghost p0: seq<int>)
    returns (ghost p: seq<int>)
    requires 0 <= i < a.Length && Rearranges(p0, s, a[..]) && AscendingBut(a[..], key, i, -1)
    modifies a
    ensures Rearranges(p, s, a[..]) && AscendingBut(a[..], key, i + 1, -1)
  {
    hide Rearranges;
    p := p0;
    var j := i;
    while j > 0 && key(a[j - 1]) > key(a[j])
      invariant 0 <= j <= i < a.Length
      invariant Rearranges(p, s, a[..])
      invariant AscendingBut(a[..], key, i + 1, j)
    {
      SwapKeeps(a[..], key, i + 1, j);
      p := SwapBack(a, j, s, p);
      j := j - 1;
    }
    InPlace(a[..], key, i + 1, j);
  }

  // Puts a into ascending order of its keys.
  method Sort<T(!new)>(a: array<T>, key: T -> int) returns (ghost p: seq<int>)
    modifies a
    ensures Rearranges(p, old(a[..]), a[..])
    ensures Ascending(a[..], key)
  {
    ghost var s := a[..];
    p := seq(a.Length, i => i);
    var i := 0;
    while i < a.Length
      invariant 0 <= i <= a.Length
      invariant Rearranges(p, s, a[..])
      invariant AscendingBut(a[..], key, i, -1)
    {
      p := Settle(a, key, i, s, p);
      i := i + 1;
    }
  }

  /* ---- The k-th smallest ---- */

  ghost function AtMost(u: seq<int>, x: int): set<int> {
    set i | 0 <= i < |u| && u[i] <= x
  }

  ghost function Below(u: seq<int>, x: int): set<int> {
    set i | 0 <= i < |u| && u[i] < x
  }

  // x is the element of u that has position k once u is sorted: no more than k elements
  // are below it, and more than k are not above it.
  ghost predicate IsKth(u: seq<int>, k: int, x: int) {
    x in u && |Below(u, x)| <= k < |AtMost(u, x)|
  }

  lemma {:induction false} SubsetSize<T>(a: set<T>, b: set<T>)
    requires a <= b
    ensures |a| <= |b|
  {
    if a != {} {
      var x :| x in a;
      SubsetSize(a - {x}, b - {x});
    }
  }

  lemma Pick<T>(a: set<T>) returns (x: T)
    requires a != {}
    ensures x in a
  {
    x :| x in a;
  }

  lemma KthIsUnique(u: seq<int>, k: int, x: int, y: int)
    requires IsKth(u, k, x) && IsKth(u, k, y)
    ensures x == y
  {
    if x < y {
      SubsetSize(AtMost(u, x), Below(u, y));
    } else if y < x {
      SubsetSize(AtMost(u, y), Below(u, x));
    }
  }

  ghost function FirstIndices(p: seq<int>, n: int): set<int>
    requires n <= |p|
  {
    set k | 0 <= k < n :: p[k]
  }

  // The first n indices of a permutation are n.
  lemma {:induction false} FirstIndicesSize(p: seq<int>, n: nat)
    requires n <= |p| && IsPermutation(p, |p|)
    ensures |FirstIndices(p, n)| == n
  {
    if n == 0 {
      assert FirstIndices(p, 0) == {};
    } else {
      FirstIndicesSize(p, n - 1);
      assert FirstIndices(p, n) == FirstIndices(p, n - 1) + {p[n - 1]};
    }
  }

  ghost predicate IsRange(r: set<int>, n: nat) {
    |r| == n && forall i :: i in r <==> 0 <= i < n
  }

  lemma {:induction false} RangeExists(n: nat) returns (r: set<int>)
    ensures IsRange(r, n)
  {
    if n == 0 {
      r := {};
    } else {
      r := RangeExists(n - 1);
      r := r + {n - 1};
    }
  }

  // The numbers from 0 to n - 1.
  ghost function Range(n: nat): (r: set<int>)
    ensures IsRange(r, n)
  {
    assert exists r :: IsRange(r, n) by {
      var r := RangeExists(n);
    }
    var r :| IsRange(r, n);
    r
  }

  // A permutation lists every index.
  lemma PermutationIsOnto(p: seq<int>, n: nat)
    requires IsPermutation(p, n)
    ensures FirstIndices(p, n) == Range(n)
  {
    FirstIndicesSize(p, n);
    SubsetIsAll(FirstIndices(p, n), Range(n));
  }

  lemma SubsetIsAll<T>(a: set<T>, b: set<T>)
    requires a <= b && |a| == |b|
    ensures a == b
  {
    if x :| x in b && x !in a {
      SubsetSize(a, b - {x});
    }
  }

  ghost function KeysOf<T(!new)>(s: seq<T>, key: T -> int): (ks: seq<int>)
    ensures |ks| == |s| && forall i :: 0 <= i < |s| ==> ks[i] == key(s[i])
  {
    seq(|s|, i requires 0 <= i < |s| => key(s[i]))
  }

  // Sorting puts the k-th smallest key at position k.
  lemma SortedHasKth<T(!new)>(s: seq<T>, key: T -> int, p: seq<int>, t: seq<T>, k: int)
    requires Rearranges(p, s, t) && Ascending(t, key) && 0 <= k < |t|
    ensures IsKth(KeysOf(s, key), k, key(t[k]))
  {
    var u, x := KeysOf(s, key), key(t[k]);
    assert u[p[k]] == x;
    FirstIndicesSize(p, k + 1);
    SubsetSize(FirstIndices(p, k + 1), AtMost(u, x));
    FirstIndicesSize(p, k);
    PermutationIsOnto(p, |u|);
    forall i | i in Below(u, x) ensures i in FirstIndices(p, k) {
      assert i in FirstIndices(p, |u|);
      var j :| 0 <= j < |p| && p[j] == i;
      assert t[j] == s[i];
    }
    SubsetSize(Below(u, x), FirstIndices(p, k));
  }
}
