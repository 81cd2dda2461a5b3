/** Sequences sorted by a strict total order. */
module Order {

  ghost predicate Strict<T(!new)>(less: (T, T) -> bool) {
    && (forall x :: !less(x, x))
    && (forall x, y, z :: less(x, y) && less(y, z) ==> less(x, z))
    && (forall x, y :: less(x, y) || x == y || less(y, x))
  }

  ghost predicate Sorted<T>(less: (T, T) -> bool, s: seq<T>) {
    forall i, j :: 0 <= i < j < |s| ==> less(s[i], s[j])
  }

  ghost predicate SameElements<T(!new)>(a: seq<T>, b: seq<T>) {
    forall x :: x in a <==> x in b
  }

  /** Two sorted sequences with the same elements are the same sequence. */
  lemma {:induction false} SortedIsUnique<T(!new)>(less: (T, T) -> bool, a: seq<T>, b: seq<T>)
    requires Strict(less) && Sorted(less, a) && Sorted(less, b) && SameElements(a, b)
    ensures a == b
    decreases |a|
  {
    assert b != [] ==> b[0] in b;
    if a != [] {
      assert a[0] in b && b != [];
      SameHead(less, a, b);
      SameTail(less, a, b);
      SortedIsUnique(less, a[1..], b[1..]);
    }
  }

  lemma HeadIsLeast<T(!new)>(less: (T, T) -> bool, s: seq<T>)
    requires Sorted(less, s) && s != []
    ensures forall x :: x in s ==> x == s[0] || less(s[0], x)
  {
  }

  lemma SameHead<T(!new)>(less: (T, T) -> bool, a: seq<T>, b: seq<T>)
    requires Strict(less) && Sorted(less, a) && Sorted(less, b) && SameElements(a, b)
    requires a != [] && b != []
    ensures a[0] == b[0]
  {
    HeadIsLeast(less, a);
    HeadIsLeast(less, b);
    assert a[0] in b && b[0] in a;
  }

  lemma SameTail<T(!new)>(less: (T, T) -> bool, a: seq<T>, b: seq<T>)
    requires Strict(less) && Sorted(less, a) && Sorted(less, b) && SameElements(a, b)
    requires a != [] && b != [] && a[0] == b[0]
    ensures SameElements(a[1..], b[1..])
  {
    TailOnly(less, a, b);
    TailOnly(less, b, a);
  }

  lemma TailOnly<T(!new)>(less: (T, T) -> bool, a: seq<T>, b: seq<T>)
    requires Strict(less) && Sorted(less, a) && SameElements(a, b)
    requires a != [] && b != [] && a[0] == b[0]
    ensures forall x :: x in a[1..] ==> x in b[1..]
  {
    forall x | x in a[1..]
      ensures x in b[1..]
    {
      var i :| 0 < i < |a| && a[i] == x;
      assert less(a[0], a[i]);
      assert x in b;
      var j :| 0 <= j < |b| && b[j] == x;
      assert b[1..][j - 1] == x;
    }
  }

  ghost predicate Least<T(!new)>(less: (T, T) -> bool, s: set<T>, m: T) {
    m in s && forall x :: x in s ==> x == m || less(m, x)
  }

  lemma {:induction false} LeastExists<T(!new)>(less: (T, T) -> bool, s: set<T>)
    requires Strict(less) && s != {}
    ensures exists m :: Least(less, s, m)
    decreases |s|
  {
    var x :| x in s;
    var rest := s - {x};
    if rest == {} {
      assert s == {x};
      assert Least(less, s, x);
    } else {
      LeastExists(less, rest);
      var m :| Least(less, rest, m);
      LeastOfBoth(less, s, x, m);
    }
  }

  lemma LeastOfBoth<T(!new)>(less: (T, T) -> bool, s: set<T>, x: T, m: T)
    requires Strict(less) && x in s && Least(less, s - {x}, m)
    ensures Least(less, s, if less(x, m) then x else m)
  {
    assert forall y :: y in s ==> y == x || y in s - {x};
  }

  /** The elements of a finite set, sorted. */
  ghost function Listing<T(!new)>(less: (T, T) -> bool, s: set<T>): (r: seq<T>)
    requires Strict(less)
    ensures Sorted(less, r)
    ensures forall x :: x in r <==> x in s
  {
    if s == {} then []
    else
      LeastExists(less, s);
      var m :| Least(less, s, m);
      [m] + Listing(less, s - {m})
  }

  /** Putting a new element in its place. */
  method Insert<T(!new)>(less: (T, T) -> bool, s: seq<T>, x: T) returns (r: seq<T>)
    requires Strict(less) && Sorted(less, s) && x !in s
    ensures Sorted(less, r)
    ensures forall y :: y in r <==> y == x || y in s
  {
    var k := 0;
    while k < |s| && less(s[k], x)
      invariant 0 <= k <= |s|
      invariant forall j :: 0 <= j < k ==> less(s[j], x)
    {
      k := k + 1;
    }
    forall j | k <= j < |s|
      ensures less(x, s[j])
    {
      assert s[k] in s;
    }
    r := s[..k] + [x] + s[k..];
    InsertedElements(s, k, x);
  }

  /** The elements of a set, collected in any order and sorted. */
  method SortSet<T(!new, ==)>(less: (T, T) -> bool, s: set<T>) returns (r: seq<T>)
    requires Strict(less)
    ensures r == Listing(less, s)
  {
    r := [];
    var todo := s;
    while todo != {}
      invariant todo <= s
      invariant Sorted(less, r) && forall x :: x in r <==> x in s - todo
      decreases todo
    {
      var x :| x in todo;
      r := Insert(less, r, x);
      todo := todo - {x};
    }
    SortedIsUnique(less, r, Listing(less, s));
  }

  lemma InsertedElements<T(!new)>(s: seq<T>, k: nat, x: T)
    requires k <= |s|
    ensures forall y :: y in s[..k] + [x] + s[k..] <==> y == x || y in s
  {
    var r := s[..k] + [x] + s[k..];
    forall y | y in s
      ensures y in r
    {
      var i :| 0 <= i < |s| && s[i] == y;
      assert r[if i < k then i else i + 1] == y;
    }
    assert r[k] == x;
  }

  // Sequences sorted by an order that leaves some elements incomparable.

  ghost predicate WeaklySorted<T>(less: (T, T) -> bool, s: seq<T>) {
    forall i, j :: 0 <= i < j < |s| ==> !less(s[j], s[i])
  }

  /** Incomparable elements of the sequence are equal. */
  ghost predicate TiesAgree<T(!new)>(less: (T, T) -> bool, s: seq<T>) {
    forall x, y :: x in s && y in s && !less(x, y) && !less(y, x) ==> x == y
  }

  /** Where ties agree, a multiset can be sorted in one way only. */
  lemma {:induction false} WeaklySortedIsUnique<T(!new)>(less: (T, T) -> bool, a: seq<T>, b: seq<T>)
    requires WeaklySorted(less, a) && WeaklySorted(less, b) && TiesAgree(less, a)
    requires multiset(a) == multiset(b)
    ensures a == b
    decreases |a|
  {
    hide WeaklySorted, TiesAgree;
    assert |a| == |multiset(a)| == |multiset(b)| == |b|;
    if a != [] {
      SameFirst(less, a, b);
      TailOf(less, a);
      TailOf(less, b);
      WeaklySortedIsUnique(less, a[1..], b[1..]);
    }
  }

  lemma FirstIsLowest<T(!new)>(less: (T, T) -> bool, s: seq<T>)
    requires WeaklySorted(less, s) && s != []
    ensures forall x :: x in s ==> x == s[0] || !less(x, s[0])
  {
  }

  lemma SameFirst<T(!new)>(less: (T, T) -> bool, a: seq<T>, b: seq<T>)
    requires WeaklySorted(less, a) && WeaklySorted(less, b) && TiesAgree(less, a)
    requires multiset(a) == multiset(b) && a != [] && b != []
    ensures a[0] == b[0]
  {
    FirstIsLowest(less, a);
    FirstIsLowest(less, b);
    assert b[0] in multiset(b);
    assert a[0] in multiset(a);
  }

  lemma TailOf<T(!new)>(less: (T, T) -> bool, s: seq<T>)
    requires WeaklySorted(less, s) && s != []
    ensures WeaklySorted(less, s[1..])
    ensures TiesAgree(less, s) ==> TiesAgree(less, s[1..])
    ensures multiset(s[1..]) == multiset(s) - multiset{s[0]}
  {
    assert s == [s[0]] + s[1..];
  }

  function Without<T>(s: seq<T>, k: nat): (r: seq<T>)
    requires k < |s|
    ensures |r| == |s| - 1
    ensures forall i :: 0 <= i < |r| ==> r[i] == s[if i < k then i else i + 1]
  {
    s[..k] + s[k + 1..]
  }

  lemma RemoveAt<T>(s: seq<T>, k: nat)
    requires k < |s|
    ensures multiset(Without(s, k)) == multiset(s) - multiset{s[k]}
  {
    assert s == s[..k] + [s[k]] + s[k + 1..];
  }

  /** Taking the first element of one permutation out of the other. */
  lemma MatchFirst<T>(a: seq<T>, b: seq<T>) returns (k: nat)
    requires multiset(a) == multiset(b) && a != []
    ensures k < |b| && b[k] == a[0]
    ensures multiset(Without(a, 0)) == multiset(Without(b, k))
  {
    hide Without;
    assert a[0] in multiset(b);
    k :| 0 <= k < |b| && b[k] == a[0];
    RemoveAt(a, 0);
    RemoveAt(b, k);
  }

  lemma SameLength<T>(a: seq<T>, b: seq<T>)
    requires multiset(a) == multiset(b)
    ensures |a| == |b|
  {
    assert |a| == |multiset(a)| == |multiset(b)| == |b|;
  }

  lemma SameMembers<T(!new)>(a: seq<T>, b: seq<T>)
    requires multiset(a) == multiset(b)
    ensures SameElements(a, b)
  {
    assert forall x :: x in a <==> x in multiset(a);
    assert forall x :: x in b <==> x in multiset(b);
  }

  /** No two elements have the same key. */
  ghost predicate DistinctBy<T, K>(key: T -> K, s: seq<T>) {
    forall i, j :: 0 <= i < j < |s| ==> key(s[i]) != key(s[j])
  }

  lemma DistinctRemove<T(!new), K>(key: T -> K, s: seq<T>, k: nat)
    requires k < |s| && DistinctBy(key, s)
    ensures DistinctBy(key, Without(s, k))
    ensures forall x :: x in Without(s, k) ==> key(x) != key(s[k])
  {
  }

  lemma DistinctRestore<T(!new), K>(key: T -> K, s: seq<T>, k: nat)
    requires k < |s| && DistinctBy(key, Without(s, k))
    requires forall x :: x in Without(s, k) ==> key(x) != key(s[k])
    ensures DistinctBy(key, s)
  {
    var rest := Without(s, k);
    forall i, j | 0 <= i < j < |s|
      ensures key(s[i]) != key(s[j])
    {
      var i', j' := if i < k then i else i - 1, if j < k then j else j - 1;
      assert i != k ==> s[i] == rest[i'] && s[i] in rest;
      assert j != k ==> s[j] == rest[j'] && s[j] in rest;
    }
  }

  lemma PermutedDistinct<T(!new), K>(key: T -> K, a: seq<T>, b: seq<T>)
    requires multiset(a) == multiset(b)
    ensures DistinctBy(key, a) <==> DistinctBy(key, b)
  {
    if DistinctBy(key, a) {
      PermutedStaysDistinct(key, a, b);
    } else if DistinctBy(key, b) {
      PermutedStaysDistinct(key, b, a);
    }
  }

  lemma {:induction false} PermutedStaysDistinct<T(!new), K>(key: T -> K, a: seq<T>, b: seq<T>)
    requires multiset(a) == multiset(b) && DistinctBy(key, a)
    ensures DistinctBy(key, b)
    decreases |a|
  {
    hide DistinctBy, Without;
    SameLength(a, b);
    if a == [] {
      assert a == b;
    } else {
      var k := MatchFirst(a, b);
      DistinctRemove(key, a, 0);
      PermutedStaysDistinct(key, Without(a, 0), Without(b, k));
      SameMembers(Without(a, 0), Without(b, k));
      DistinctRestore(key, b, k);
    }
  }

  lemma TiesAgreeOnPermutation<T(!new)>(less: (T, T) -> bool, a: seq<T>, b: seq<T>)
    requires TiesAgree(less, a) && multiset(a) == multiset(b)
    ensures TiesAgree(less, b)
  {
    forall x | x in b
      ensures x in a
    {
      assert x in multiset(b);
    }
  }

  /** The order is asymmetric, and being tied or below is transitive. */
  ghost predicate WeakOrder<T(!new)>(less: (T, T) -> bool) {
    && (forall x, y :: less(x, y) ==> !less(y, x))
    && (forall x, y, z :: !less(y, x) && !less(z, y) ==> !less(z, x))
  }

  /** A library sort: some permutation in which nothing stands behind a greater element. */
  method SortWeakly<T(!new)>(less: (T, T) -> bool, s: seq<T>) returns (r: seq<T>)
    requires WeakOrder(less)
    ensures WeaklySorted(less, r) && multiset(r) == multiset(s)
  {
    r := [];
    for i := 0 to |s|
      invariant WeaklySorted(less, r) && multiset(r) == multiset(s[..i])
    {
      var k := 0;
      while k < |r| && !less(s[i], r[k])
        invariant 0 <= k <= |r|
        invariant forall j :: 0 <= j < k ==> !less(s[i], r[j])
      {
        k := k + 1;
      }
      InsertWeakly(less, r, s[i], k);
      InsertMultiset(r, s[i], k);
      assert s[..i + 1] == s[..i] + [s[i]];
      r := r[..k] + [s[i]] + r[k..];
    }
    assert s[..|s|] == s;
  }

  lemma InsertWeakly<T(!new)>(less: (T, T) -> bool, r: seq<T>, x: T, k: nat)
    requires WeakOrder(less) && WeaklySorted(less, r) && k <= |r|
    requires forall j :: 0 <= j < k ==> !less(x, r[j])
    requires k < |r| ==> less(x, r[k])
    ensures WeaklySorted(less, r[..k] + [x] + r[k..])
  {
    hide WeakOrder;
    var t := r[..k] + [x] + r[k..];
    assert forall i :: 0 <= i < |t| ==> t[i] == if i < k then r[i] else if i == k then x else r[i - 1];
    forall j | k <= j < |r|
      ensures !less(r[j], x)
    {
      NotBelow(less, x, r[k], r[j]);
    }
    forall i, j | 0 <= i < j < |t|
      ensures !less(t[j], t[i])
    {
    }
  }

  lemma InsertMultiset<T>(r: seq<T>, x: T, k: nat)
    requires k <= |r|
    ensures multiset(r[..k] + [x] + r[k..]) == multiset(r) + multiset{x}
  {
    assert r == r[..k] + r[k..];
  }

  lemma NotBelow<T(!new)>(less: (T, T) -> bool, x: T, y: T, z: T)
    requires WeakOrder(less) && less(x, y) && (z == y || !less(z, y))
    ensures !less(z, x)
  {
    assert !less(y, x);
  }
}
