/**
 * The two routines of Go's sort package that the ring uses: sort.Ints
 * (ascending sort of an int slice) and sort.Search (binary search for the
 * first index at which a monotone predicate holds).
 */
module Sort {

  /** Ascending order; equal elements may repeat. */
  predicate Sorted(s: seq<int>) {
    forall a, b :: 0 <= a < b < |s| ==> s[a] <= s[b]
  }

  /** Reference definition of sorting: insert each element into a sorted sequence. */
  function Insert(s: seq<int>, x: int): (r: seq<int>)
    ensures multiset(r) == multiset(s) + multiset{x}
  {
    if s == [] || x <= s[0] then [x] + s
    else
      assert s == [s[0]] + s[1..];
      [s[0]] + Insert(s[1..], x)
  }

  lemma {:induction false} InsertAbove(s: seq<int>, x: int, lo: int)
    requires lo <= x
    requires forall k :: 0 <= k < |s| ==> lo <= s[k]
    ensures forall k :: 0 <= k < |Insert(s, x)| ==> lo <= Insert(s, x)[k]
  {
    if s != [] && x > s[0] {
      InsertAbove(s[1..], x, lo);
    }
  }

  lemma {:induction false} InsertSorted(s: seq<int>, x: int)
    requires Sorted(s)
    ensures Sorted(Insert(s, x))
  {
    if s != [] && x > s[0] {
      InsertSorted(s[1..], x);
      InsertAbove(s[1..], x, s[0]);
    }
  }

  function SortSeq(s: seq<int>): (r: seq<int>)
    ensures Sorted(r)
    ensures multiset(r) == multiset(s)
  {
    if s == [] then []
    else
      assert s == [s[0]] + s[1..];
      var sortedTail := SortSeq(s[1..]);
      InsertSorted(sortedTail, s[0]);
      Insert(sortedTail, s[0])
  }

  /** Two sorted permutations of each other start with the same (least) element. */
  lemma SortedHeadsEqual(a: seq<int>, b: seq<int>)
    requires Sorted(a) && Sorted(b) && a != [] && b != []
    requires multiset(a) == multiset(b)
    ensures a[0] == b[0]
  {
    assert a[0] in multiset(b) && b[0] in multiset(a);
  }

  /** Dropping the head of a sequence removes one copy of it from the multiset. */
  lemma TailMultiset(a: seq<int>)
    requires a != []
    ensures multiset(a[1..]) == multiset(a) - multiset{a[0]}
  {
    assert a == [a[0]] + a[1..];
  }

  /** A sorted permutation is unique: any two agree element by element. */
  lemma {:induction false} SortedUnique(a: seq<int>, b: seq<int>)
    requires Sorted(a) && Sorted(b)
    requires multiset(a) == multiset(b)
    ensures a == b
  {
    assert |a| == |multiset(a)| == |multiset(b)| == |b|;
    if a != [] {
      SortedHeadsEqual(a, b);
      TailMultiset(a);
      TailMultiset(b);
      SortedUnique(a[1..], b[1..]);
      assert a == [a[0]] + a[1..] && b == [b[0]] + b[1..];
    }
  }

  /** Placing x between the elements at most x and those above it keeps the sequence sorted. */
  lemma InsertAtSorted(r: seq<int>, j: nat, x: int)
    requires Sorted(r) && j <= |r|
    requires j > 0 ==> r[j - 1] <= x
    requires forall k :: j <= k < |r| ==> x < r[k]
    ensures Sorted(r[..j] + [x] + r[j..])
  {
    var t := r[..j] + [x] + r[j..];
    assert |t| == |r| + 1 && t[j] == x;
    assert forall k :: 0 <= k < j ==> t[k] == r[k];
    assert forall k :: j < k < |t| ==> t[k] == r[k - 1];
    forall a, b | 0 <= a < b < |t|
      ensures t[a] <= t[b]
    {
      if b < j {
        assert r[a] <= r[b];
      } else if a > j {
        assert r[a - 1] <= r[b - 1];
      } else if a < j && b > j {
        assert r[a] <= r[j - 1] <= x < r[b - 1];
      } else if a < j {
        assert r[a] <= r[j - 1];
      }
    }
  }

  lemma InsertAtMultiset(r: seq<int>, j: nat, x: int)
    requires j <= |r|
    ensures multiset(r[..j] + [x] + r[j..]) == multiset(r) + multiset{x}
  {
    calc {
      multiset(r[..j] + [x] + r[j..]);
      multiset(r[..j]) + multiset{x} + multiset(r[j..]);
      { assert r == r[..j] + r[j..]; }
      multiset(r) + multiset{x};
    }
  }

  /** sort.Ints: the result is the sorted permutation of the input. */
  method Ints(s: seq<int>) returns (r: seq<int>)
    ensures Sorted(r)
    ensures multiset(r) == multiset(s)
    ensures r == SortSeq(s)
  {
    r := [];
    for i := 0 to |s|
      invariant Sorted(r)
      invariant multiset(r) == multiset(s[..i])
    {
      var x := s[i];
      var j := |r|;
      while j > 0 && r[j - 1] > x
        invariant 0 <= j <= |r|
        invariant forall k :: j <= k < |r| ==> x < r[k]
      {
        j := j - 1;
      }
      InsertAtSorted(r, j, x);
      InsertAtMultiset(r, j, x);
      assert s[..i + 1] == s[..i] + [x];
      r := r[..j] + [x] + r[j..];
    }
    assert s[..|s|] == s;
    SortedUnique(r, SortSeq(s));
  }

  /**
   * sort.Search(n, f): the smallest index in [0, n] at which the predicate
   * holds, for a predicate that is monotone on [0, n); n when it holds nowhere.
   */
  method Search(n: nat, f: int -> bool) returns (i: nat)
    requires forall a, b :: 0 <= a <= b < n && f(a) ==> f(b)
    ensures i <= n
    ensures forall k :: 0 <= k < i ==> !f(k)
    ensures forall k :: i <= k < n ==> f(k)
  {
    var lo, hi := 0, n;
    while lo < hi
      invariant 0 <= lo <= hi <= n
      invariant forall k :: 0 <= k < lo ==> !f(k)
      invariant forall k :: hi <= k < n ==> f(k)
    {
      var h := (lo + hi) / 2;
      if !f(h) {
        lo := h + 1;
      } else {
        hi := h;
      }
    }
    i := lo;
  }

  /** The first index whose element is at least t; |s| if there is none. */
  function FirstAtLeast(s: seq<int>, t: int): (i: nat)
    ensures i <= |s|
    ensures forall k :: 0 <= k < i ==> s[k] < t
    ensures i < |s| ==> s[i] >= t
  {
    if s == [] || s[0] >= t then 0 else 1 + FirstAtLeast(s[1..], t)
  }

  /** Any element at least t sits at or after the index FirstAtLeast finds. */
  lemma NotBelowFirstAtLeast(s: seq<int>, t: int, k: nat)
    requires k < |s| && s[k] >= t
    ensures FirstAtLeast(s, t) <= k
  {
  }

  /** Index i splits s into a part below t and a part at or above t exactly when it is FirstAtLeast. */
  lemma {:induction false} FirstAtLeastUnique(s: seq<int>, t: int, i: nat)
    requires i <= |s|
    requires forall k :: 0 <= k < i ==> s[k] < t
    requires forall k :: i <= k < |s| ==> s[k] >= t
    ensures i == FirstAtLeast(s, t)
  {
    if s != [] && s[0] < t {
      assert 0 < i;
      FirstAtLeastUnique(s[1..], t, i - 1);
    }
  }
}
