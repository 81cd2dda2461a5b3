/** Types shared by all modules, subsequences, and sums over finite maps. */
module Common {

  type byte = x: int | 0 <= x < 256 witness 0

  type Bytes = seq<byte>

  datatype Option<+T> = None | Some(value: T)

  /** `a` is `b` with some elements left out. */
  ghost predicate Subsequence<T>(a: seq<T>, b: seq<T>) {
    if a == [] then true
    else if b == [] then false
    else if a[|a| - 1] == b[|b| - 1] then Subsequence(a[..|a| - 1], b[..|b| - 1])
    else Subsequence(a, b[..|b| - 1])
  }

  lemma SubsequenceBoth<T>(a: seq<T>, b: seq<T>, x: T)
    requires Subsequence(a, b)
    ensures Subsequence(a + [x], b + [x])
  {
    assert (a + [x])[..|a|] == a && (b + [x])[..|b|] == b;
  }

  lemma {:induction false} SubsequencePush<T>(a: seq<T>, b: seq<T>, x: T)
    requires Subsequence(a, b)
    ensures Subsequence(a, b + [x])
    decreases |b|, 1
  {
    assert (b + [x])[..|b|] == b;
    if a != [] && a[|a| - 1] == x {
      SubsequenceInit(a, b);
    }
  }

  lemma {:induction false} SubsequenceInit<T>(a: seq<T>, b: seq<T>)
    requires Subsequence(a, b) && a != []
    ensures Subsequence(a[..|a| - 1], b)
    decreases |b|, 0
  {
    if a[|a| - 1] == b[|b| - 1] {
      assert b == b[..|b| - 1] + [b[|b| - 1]];
      SubsequencePush(a[..|a| - 1], b[..|b| - 1], b[|b| - 1]);
    } else {
      SubsequenceInit(a, b[..|b| - 1]);
      assert b == b[..|b| - 1] + [b[|b| - 1]];
      SubsequencePush(a[..|a| - 1], b[..|b| - 1], b[|b| - 1]);
    }
  }

  /** The sum of the values of a finite map. */
  ghost function Sum<K>(w: map<K, nat>): (n: nat)
  {
    if w == map[] then 0
    else
      var k :| k in w;
      w[k] + Sum(w - {k})
  }

  /** Any key may be taken out first, so the sum does not depend on the order of iteration. */
  lemma {:induction false} SumTakeOut<K>(w: map<K, nat>, k: K)
    requires k in w
    ensures Sum(w) == w[k] + Sum(w - {k})
    decreases |w|
  {
    var c :| c in w && Sum(w) == w[c] + Sum(w - {c});
    if c != k {
      SumTakeOut(w - {c}, k);
      SumTakeOut(w - {k}, c);
      assert w - {c} - {k} == w - {k} - {c};
    }
  }

  lemma SumPut<K>(w: map<K, nat>, k: K, n: nat)
    requires k !in w
    ensures Sum(w[k := n]) == n + Sum(w)
  {
    SumTakeOut(w[k := n], k);
    assert w[k := n] - {k} == w;
  }

  /** Sums add up pointwise. */
  lemma {:induction false} SumPlus<K>(w: map<K, nat>, u: map<K, nat>, v: map<K, nat>)
    requires w.Keys == u.Keys == v.Keys
    requires forall k :: k in w ==> w[k] == u[k] + v[k]
    ensures Sum(w) == Sum(u) + Sum(v)
    decreases |w|
  {
    if w != map[] {
      var k :| k in w;
      SumTakeOut(w, k);
      SumTakeOut(u, k);
      SumTakeOut(v, k);
      SumPlus(w - {k}, u - {k}, v - {k});
    } else {
      assert u == map[] && v == map[];
    }
  }

  /** Splitting the keys in two splits the sum in two. */
  lemma {:induction false} SumSplit<K>(w: map<K, nat>, s: set<K>)
    ensures Sum(w) == Sum(map k | k in w && k in s :: w[k]) + Sum(w - s)
    decreases |w|
  {
    var inside := map k | k in w && k in s :: w[k];
    if w == map[] {
      assert inside == map[] && w - s == map[];
    } else {
      var k :| k in w;
      var w' := w - {k};
      SumSplit(w', s);
      SumTakeOut(w, k);
      if k in s {
        SumTakeOut(inside, k);
        assert inside - {k} == map j | j in w' && j in s :: w'[j];
        assert w - s == w' - s;
      } else {
        SumTakeOut(w - s, k);
        assert (w - s) - {k} == w' - s;
        assert inside == map j | j in w' && j in s :: w'[j];
      }
    }
  }

  /** Entries that are zero may be left out. */
  lemma {:induction false} SumNonZero<K>(w: map<K, nat>, v: map<K, nat>)
    requires forall k :: k in v <==> k in w && w[k] != 0
    requires forall k :: k in v ==> v[k] == w[k]
    ensures Sum(w) == Sum(v)
    decreases |w|
  {
    if w != map[] {
      var k :| k in w;
      SumTakeOut(w, k);
      if w[k] != 0 {
        SumTakeOut(v, k);
        SumNonZero(w - {k}, v - {k});
      } else {
        SumNonZero(w - {k}, v);
      }
    } else {
      assert v == map[];
    }
  }

  /** A sum is zero exactly when every entry is. */
  lemma {:induction false} SumZero<K>(w: map<K, nat>)
    ensures Sum(w) == 0 <==> forall k :: k in w ==> w[k] == 0
    decreases |w|
  {
    if w != map[] {
      var k :| k in w;
      SumTakeOut(w, k);
      SumZero(w - {k});
      assert forall j :: j in w <==> j == k || j in w - {k};
    }
  }
}
