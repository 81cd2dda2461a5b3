/** `SortByPower` of utils/utils.go: the order of validators that every node must compute alike. */
module ValidatorSort {
  import opened Common
  import opened Order
  import opened ByteOrder

  /** An operator's address, its consensus key and its power, which the source keeps in three slices. */
  datatype Entry<+K> = Entry(addr: Bytes, key: K, power: int)

  /** More power comes first; equal powers are ordered by address bytes. */
  predicate Before<K>(a: Entry<K>, b: Entry<K>) {
    if a.power == b.power then ByteLess(a.addr, b.addr) else a.power > b.power
  }

  lemma BeforeTransitive<K>(a: Entry<K>, b: Entry<K>, c: Entry<K>)
    requires !Before(b, a) && !Before(c, b)
    ensures !Before(c, a)
  {
    hide ByteLess;
    if a.power == b.power == c.power {
      NotLessTransitive(a.addr, b.addr, c.addr);
    }
  }

  lemma BeforeAsymmetric<K>(a: Entry<K>, b: Entry<K>)
    requires Before(a, b)
    ensures !Before(b, a)
  {
    ByteLessTotal(a.addr, b.addr);
  }

  /** Only entries with the same power and address are tied. */
  lemma TiedMeansSameAddress<K>(a: Entry<K>, b: Entry<K>)
    ensures !Before(a, b) && !Before(b, a) <==> a.power == b.power && a.addr == b.addr
  {
    ByteLessTotal(a.addr, b.addr);
  }

  /** The three slices as one list of entries. */
  function Zip<K>(addrs: seq<Bytes>, keys: seq<K>, powers: seq<int>): (es: seq<Entry<K>>)
    requires |addrs| == |keys| == |powers|
    ensures |es| == |powers|
    ensures forall i :: 0 <= i < |es| ==> es[i] == Entry(addrs[i], keys[i], powers[i])
  {
    seq(|powers|, i requires 0 <= i < |powers| => Entry(addrs[i], keys[i], powers[i]))
  }

  // ------------------------------------------------------------ sorting indices

  ghost predicate InRange(idx: seq<nat>, n: nat) {
    forall i :: 0 <= i < |idx| ==> idx[i] < n
  }

  /** Neighbours from `lo` to `hi` are in order. */
  ghost predicate InOrder<K>(es: seq<Entry<K>>, idx: seq<nat>, lo: int, hi: int)
    requires 0 <= lo && hi <= |idx| && InRange(idx, |es|)
  {
    forall i :: lo < i < hi ==> !Before(es[idx[i]], es[idx[i - 1]])
  }

  lemma RangeOfPermutation(a: seq<nat>, b: seq<nat>, n: nat)
    requires multiset(a) == multiset(b) && InRange(a, n)
    ensures InRange(b, n)
  {
    forall i | 0 <= i < |b|
      ensures b[i] < n
    {
      assert b[i] in multiset(b);
      assert b[i] in a;
    }
  }

  lemma SwapKeepsMultiset<T>(s: seq<T>, i: nat, j: nat)
    requires i < |s| && j < |s|
    ensures multiset(s[i := s[j]][j := s[i]]) == multiset(s)
  {
  }

  /** All is in order up to `i` but for the element at `j`, which may be too far right. */
  ghost predicate Sifting<K>(es: seq<Entry<K>>, idx: seq<nat>, j: int, i: int) {
    && 0 <= j <= i < |idx| && InRange(idx, |es|)
    && InOrder(es, idx, 0, j) && InOrder(es, idx, j, i + 1)
    && (0 < j < i ==> !Before(es[idx[j + 1]], es[idx[j - 1]]))
  }

  lemma SiftStep<K>(es: seq<Entry<K>>, s: seq<nat>, j: nat, i: nat)
    requires 0 < j && Sifting(es, s, j, i) && Before(es[s[j]], es[s[j - 1]])
    ensures var t := s[j := s[j - 1]][j - 1 := s[j]];
            Sifting(es, t, j - 1, i) && multiset(t) == multiset(s)
  {
    hide Before;
    BeforeAsymmetric(es[s[j]], es[s[j - 1]]);
    SwapKeepsMultiset(s, j, j - 1);
    var t := s[j := s[j - 1]][j - 1 := s[j]];
    RangeOfPermutation(s, t, |es|);
  }

  /** Moving the element at `i` down to its place among the sorted ones before it. */
  method SiftDown<K>(es: seq<Entry<K>>, indices: array<nat>, i: nat)
    requires i < indices.Length && InRange(indices[..], |es|) && InOrder(es, indices[..], 0, i)
    modifies indices
    ensures multiset(indices[..]) == multiset(old(indices[..]))
    ensures InRange(indices[..], |es|) && InOrder(es, indices[..], 0, i + 1)
  {
    var j := i;
    while j > 0 && Before(es[indices[..][j]], es[indices[..][j - 1]])
      invariant Sifting(es, indices[..], j, i)
      invariant multiset(indices[..]) == multiset(old(indices[..]))
    {
      ghost var s := indices[..];
      SiftStep(es, s, j, i);
      indices[j], indices[j - 1] := indices[j - 1], indices[j];
      assert indices[..] == s[j := s[j - 1]][j - 1 := s[j]];
      j := j - 1;
    }
    SiftedIsInOrder(es, indices[..], j, i);
  }

  lemma SiftedIsInOrder<K>(es: seq<Entry<K>>, s: seq<nat>, j: nat, i: nat)
    requires Sifting(es, s, j, i) && (j > 0 ==> !Before(es[s[j]], es[s[j - 1]]))
    ensures InOrder(es, s, 0, i + 1)
  {
  }

  /** `sort.Slice` on the index slice, in place. */
  method SortIndices<K>(es: seq<Entry<K>>, indices: array<nat>)
    requires InRange(indices[..], |es|)
    modifies indices
    ensures multiset(indices[..]) == multiset(old(indices[..]))
    ensures InRange(indices[..], |es|) && InOrder(es, indices[..], 0, indices.Length)
  {
    var i := 0;
    while i < indices.Length
      invariant 0 <= i <= indices.Length
      invariant multiset(indices[..]) == multiset(old(indices[..]))
      invariant InRange(indices[..], |es|) && InOrder(es, indices[..], 0, i)
    {
      SiftDown(es, indices, i);
      i := i + 1;
    }
  }

  ghost function Select<K>(es: seq<Entry<K>>, idx: seq<nat>): (r: seq<Entry<K>>)
    requires InRange(idx, |es|)
    ensures |r| == |idx| && forall i :: 0 <= i < |idx| ==> r[i] == es[idx[i]]
  {
    seq(|idx|, i requires 0 <= i < |idx| => es[idx[i]])
  }

  lemma {:induction false} InOrderIsSorted<K(!new)>(es: seq<Entry<K>>, idx: seq<nat>)
    requires InRange(idx, |es|) && InOrder(es, idx, 0, |idx|)
    ensures WeaklySorted(Before, Select(es, idx))
  {
    if idx != [] {
      var n := |idx| - 1;
      assert InOrder(es, idx[..n], 0, n);
      InOrderIsSorted(es, idx[..n]);
      forall i | 0 <= i < n
        ensures !Before(es[idx[n]], es[idx[i]])
      {
        if i < n - 1 {
          assert Select(es, idx[..n])[i] == es[idx[i]];
          assert Select(es, idx[..n])[n - 1] == es[idx[n - 1]];
          BeforeTransitive(es[idx[i]], es[idx[n - 1]], es[idx[n]]);
        }
      }
      forall i, j | 0 <= i < j < |idx|
        ensures !Before(es[idx[j]], es[idx[i]])
      {
        if j < n {
          assert Select(es, idx[..n])[i] == es[idx[i]] && Select(es, idx[..n])[j] == es[idx[j]];
        }
      }
    }
  }

  /** Selecting by permuted indices permutes the selection. */
  lemma {:induction false} SelectPermuted<K(!new)>(es: seq<Entry<K>>, a: seq<nat>, b: seq<nat>)
    requires InRange(a, |es|) && InRange(b, |es|) && multiset(a) == multiset(b)
    ensures multiset(Select(es, a)) == multiset(Select(es, b))
    decreases |a|
  {
    SameLength(a, b);
    if a != [] {
      hide Without;
      var k := MatchFirst(a, b);
      SelectRemove(es, a, 0);
      SelectRemove(es, b, k);
      SelectPermuted(es, Without(a, 0), Without(b, k));
    }
  }

  lemma SelectRemove<K(!new)>(es: seq<Entry<K>>, b: seq<nat>, k: nat)
    requires InRange(b, |es|) && k < |b|
    ensures InRange(Without(b, k), |es|)
    ensures multiset(Select(es, b)) == multiset(Select(es, Without(b, k))) + multiset{es[b[k]]}
  {
    var l, r := b[..k], b[k + 1..];
    assert b == l + ([b[k]] + r);
    SelectConcat(es, l, [b[k]] + r);
    SelectConcat(es, [b[k]], r);
    SelectConcat(es, l, r);
    assert Select(es, [b[k]]) == [es[b[k]]];
  }

  lemma SelectConcat<K(!new)>(es: seq<Entry<K>>, a: seq<nat>, b: seq<nat>)
    requires InRange(a, |es|) && InRange(b, |es|)
    ensures InRange(a + b, |es|) && Select(es, a + b) == Select(es, a) + Select(es, b)
  {
  }

  // ----------------------------------------------------------------- SortByPower

  /** Sorted entries have falling powers, and rising addresses where powers are equal. */
  ghost predicate InOrderOfPower(addrs: seq<Bytes>, powers: seq<int>) {
    |addrs| == |powers| && forall i, k :: 0 <= i < k < |powers| ==>
      powers[i] > powers[k] || (powers[i] == powers[k] && (addrs[i] == addrs[k] || exists m: nat :: SmallerAt(addrs[i], addrs[k], m)))
  }

  lemma SortedByPowerAndAddress<K(!new)>(addrs: seq<Bytes>, keys: seq<K>, powers: seq<int>)
    requires |addrs| == |keys| == |powers| && WeaklySorted(Before, Zip(addrs, keys, powers))
    ensures InOrderOfPower(addrs, powers)
  {
    hide ByteLess, SmallerAt;
    var es := Zip(addrs, keys, powers);
    forall i, k | 0 <= i < k < |powers|
      ensures powers[i] > powers[k]
              || (powers[i] == powers[k] && (addrs[i] == addrs[k] || exists m: nat :: SmallerAt(addrs[i], addrs[k], m)))
    {
      assert !Before(es[k], es[i]);
      ByteLessTotal(addrs[i], addrs[k]);
      ByteLessAtFirstDifference(addrs[i], addrs[k]);
    }
  }

  /** `SortByPower`: an aligned permutation of the three slices, with falling powers, and among equal
      powers rising addresses, compared at the first byte where they differ. */
  method SortByPower<K(!new)>(addrs: seq<Bytes>, keys: seq<K>, powers: seq<int>)
    returns (sortedAddrs: seq<Bytes>, sortedKeys: seq<K>, sortedPowers: seq<int>)
    requires |addrs| == |keys| == |powers|
    ensures |sortedAddrs| == |sortedKeys| == |sortedPowers| == |powers|
    ensures multiset(Zip(sortedAddrs, sortedKeys, sortedPowers)) == multiset(Zip(addrs, keys, powers))
    ensures WeaklySorted(Before, Zip(sortedAddrs, sortedKeys, sortedPowers))
    ensures InOrderOfPower(sortedAddrs, sortedPowers)
  {
    hide InOrderOfPower;
    var es := Zip(addrs, keys, powers);
    var indices := new nat[|powers|](i => i);
    ghost var identity := indices[..];
    SortIndices(es, indices);
    ghost var idx := indices[..];
    sortedAddrs, sortedKeys, sortedPowers := [], [], [];
    for i := 0 to indices.Length
      invariant indices[..] == idx
      invariant |sortedAddrs| == |sortedKeys| == |sortedPowers| == i
      invariant Zip(sortedAddrs, sortedKeys, sortedPowers) == Select(es, idx[..i])
    {
      sortedAddrs := sortedAddrs + [addrs[indices[i]]];
      sortedKeys := sortedKeys + [keys[indices[i]]];
      sortedPowers := sortedPowers + [powers[indices[i]]];
    }
    assert idx[..|idx|] == idx;
    InOrderIsSorted(es, idx);
    SelectPermuted(es, idx, identity);
    assert Select(es, identity) == es;
    SortedByPowerAndAddress(sortedAddrs, sortedKeys, sortedPowers);
  }

  ghost predicate DistinctAddresses<K>(es: seq<Entry<K>>) {
    forall i, j :: 0 <= i < j < |es| ==> es[i].addr != es[j].addr
  }

  lemma DistinctAddressesLeaveNoTies<K(!new)>(es: seq<Entry<K>>)
    requires DistinctAddresses(es)
    ensures TiesAgree<Entry<K>>(Before, es)
  {
    forall x, y | x in es && y in es && !Before(x, y) && !Before(y, x)
      ensures x == y
    {
      TiedMeansSameAddress(x, y);
    }
  }

  /** Every permutation of the same entries is sorted into the same list, whatever order
      `sort.Slice` visits them in, if the addresses are distinct. */
  lemma SortIsCanonical<K(!new)>(input: seq<Entry<K>>, a: seq<Entry<K>>, b: seq<Entry<K>>)
    requires DistinctAddresses(input)
    requires multiset(a) == multiset(input) && multiset(b) == multiset(input)
    requires WeaklySorted(Before, a) && WeaklySorted(Before, b)
    ensures a == b
  {
    DistinctAddressesLeaveNoTies(input);
    TiesAgreeOnPermutation(Before, input, a);
    WeaklySortedIsUnique(Before, a, b);
  }

  /** Two entries with equal power and address but different keys can be exchanged
      in any sorted list. */
  lemma TiedEntriesCanSwap<K(!new)>(a: seq<Entry<K>>, i: nat, j: nat)
    requires WeaklySorted(Before, a) && i < j < |a|
    requires a[i].power == a[j].power && a[i].addr == a[j].addr && a[i].key != a[j].key
    ensures var b := a[i := a[j]][j := a[i]];
            WeaklySorted(Before, b) && multiset(b) == multiset(a) && b != a
  {
    var b := a[i := a[j]][j := a[i]];
    SwapKeepsMultiset(a, i, j);
    forall k, l | 0 <= k < l < |b|
      ensures !Before(b[l], b[k])
    {
      assert b[k].power == a[k].power && b[k].addr == a[k].addr;
      assert b[l].power == a[l].power && b[l].addr == a[l].addr;
    }
  }

  /** Entries with equal power and address carry the same key. */
  ghost predicate KeysAgree<K>(es: seq<Entry<K>>) {
    forall i, j :: 0 <= i < j < |es| && es[i].power == es[j].power && es[i].addr == es[j].addr ==> es[i].key == es[j].key
  }

  /** The sorted list is determined by its entries exactly when their keys agree. */
  lemma SortedInOneWay<K(!new)>(a: seq<Entry<K>>)
    requires WeaklySorted(Before, a)
    ensures KeysAgree(a) <==>
              forall b :: WeaklySorted(Before, b) && multiset(b) == multiset(a) ==> b == a
  {
    if KeysAgree(a) {
      forall x, y | x in a && y in a && !Before(x, y) && !Before(y, x)
        ensures x == y
      {
        TiedMeansSameAddress(x, y);
      }
      forall b | WeaklySorted(Before, b) && multiset(b) == multiset(a)
        ensures b == a
      {
        WeaklySortedIsUnique(Before, a, b);
      }
    } else {
      var i, j :| 0 <= i < j < |a| && a[i].power == a[j].power && a[i].addr == a[j].addr && a[i].key != a[j].key;
      TiedEntriesCanSwap(a, i, j);
    }
  }
}
