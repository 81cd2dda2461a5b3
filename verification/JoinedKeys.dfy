/** Joined store keys (utils/utils.go) and structured keys (utils/store.go). */
module JoinedKeys {
  import opened Common

  // -------------------------------------------------------------- join and split

  /** `strings.Join`. */
  function Join(ks: seq<Bytes>, d: Bytes): (b: Bytes) {
    if ks == [] then []
    else if |ks| == 1 then ks[0]
    else ks[0] + d + Join(ks[1..], d)
  }

  /** One more byte at the front of the first component. */
  function PutFirst(c: byte, ks: seq<Bytes>): (r: seq<Bytes>)
    requires ks != []
    ensures r != []
  {
    [[c] + ks[0]] + ks[1..]
  }

  /** `strings.Split` by a single byte. */
  function Split(b: Bytes, d: byte): (ks: seq<Bytes>)
    ensures ks != []
  {
    if b == [] then [[]]
    else
      var rest := Split(b[1..], d);
      if b[0] == d then [[]] + rest else PutFirst(b[0], rest)
  }

  ghost predicate Free(ks: seq<Bytes>, d: byte) {
    forall i :: 0 <= i < |ks| ==> d !in ks[i]
  }

  lemma {:induction false} SplitIsFree(b: Bytes, d: byte)
    ensures Free(Split(b, d), d)
  {
    if b != [] {
      SplitIsFree(b[1..], d);
    }
  }

  lemma JoinPut(k: Bytes, ks: seq<Bytes>, d: Bytes)
    requires ks != []
    ensures Join([k] + ks, d) == k + d + Join(ks, d)
  {
    assert ([k] + ks)[1..] == ks;
  }

  /** Joining undoes splitting, on every byte string. */
  lemma {:induction false} JoinUndoesSplit(b: Bytes, d: byte)
    ensures Join(Split(b, d), [d]) == b
  {
    if b != [] {
      var rest := Split(b[1..], d);
      JoinUndoesSplit(b[1..], d);
      if b[0] == d {
        JoinPut([], rest, [d]);
        assert [] + [d] + b[1..] == b;
      } else {
        JoinFirst(b[0], rest, [d]);
        assert [b[0]] + b[1..] == b;
      }
    }
  }

  /** A byte put in front of the first component is put in front of the joined key. */
  lemma JoinFirst(c: byte, ks: seq<Bytes>, d: Bytes)
    requires ks != []
    ensures Join(PutFirst(c, ks), d) == [c] + Join(ks, d)
  {
    var ls := PutFirst(c, ks);
    assert ls[0] == [c] + ks[0] && ls[1..] == ks[1..];
    if |ks| > 1 {
      assert ([c] + ks[0]) + d + Join(ks[1..], d) == [c] + (ks[0] + d + Join(ks[1..], d));
    }
  }

  /** Splitting at a delimiter in the middle. */
  lemma {:induction false} SplitConcat(a: Bytes, c: Bytes, d: byte)
    ensures Split(a + [d] + c, d) == Split(a, d) + Split(c, d)
  {
    if a == [] {
      assert a + [d] + c == [d] + c;
      assert ([d] + c)[1..] == c;
    } else {
      assert (a + [d] + c)[1..] == a[1..] + [d] + c;
      assert (a + [d] + c)[0] == a[0];
      SplitConcat(a[1..], c, d);
      var x, y := Split(a[1..], d), Split(c, d);
      hide PutFirst;
      PutFirstConcat(a[0], x, y);
      assert [[]] + (x + y) == [[]] + x + y;
    }
  }

  lemma PutFirstConcat(c: byte, xs: seq<Bytes>, ys: seq<Bytes>)
    requires xs != []
    ensures PutFirst(c, xs + ys) == PutFirst(c, xs) + ys
  {
    assert (xs + ys)[0] == xs[0] && (xs + ys)[1..] == xs[1..] + ys;
  }

  lemma {:induction false} SplitOfFree(k: Bytes, d: byte)
    requires d !in k
    ensures Split(k, d) == [k]
  {
    if k != [] {
      SplitOfFree(k[1..], d);
      assert [k[0]] + k[1..] == k;
    }
  }

  lemma {:induction false} SplitOfJoin(ks: seq<Bytes>, d: byte)
    requires ks != [] && Free(ks, d)
    ensures Split(Join(ks, [d]), d) == ks
  {
    SplitOfFree(ks[0], d);
    if |ks| > 1 {
      SplitOfJoin(ks[1..], d);
      SplitConcat(ks[0], Join(ks[1..], [d]), d);
      assert [ks[0]] + ks[1..] == ks;
    } else {
      assert [ks[0]] == ks;
    }
  }

  /** Splitting undoes joining exactly for non-empty lists of components without the delimiter. */
  lemma SplitUndoesJoin(ks: seq<Bytes>, d: byte)
    ensures Split(Join(ks, [d]), d) == ks <==> ks != [] && Free(ks, d)
  {
    if ks != [] && Free(ks, d) {
      SplitOfJoin(ks, d);
    }
    SplitIsFree(Join(ks, [d]), d);
  }

  lemma {:induction false} JoinConcat(xs: seq<Bytes>, ys: seq<Bytes>, d: Bytes)
    requires xs != [] && ys != []
    ensures Join(xs + ys, d) == Join(xs, d) + d + Join(ys, d)
  {
    if |xs| == 1 {
      assert xs + ys == [xs[0]] + ys;
      JoinPut(xs[0], ys, d);
    } else {
      JoinConcat(xs[1..], ys, d);
      assert xs + ys == [xs[0]] + (xs[1..] + ys);
      JoinPut(xs[0], xs[1..] + ys, d);
      var x, y, z := xs[0], Join(xs[1..], d), Join(ys, d);
      assert x + d + (y + d + z) == (x + d + y) + d + z;
    }
  }

  /** The components of `a` are the first of the components of `b`, and `b` has more. */
  predicate ProperPrefix(a: seq<Bytes>, b: seq<Bytes>) {
    |a| < |b| && a == b[..|a|]
  }

  /** A key followed by the delimiter is a byte prefix of another exactly when its components
      are a proper prefix of the other's. */
  lemma PrefixOfComponents(a: Bytes, b: Bytes, d: byte)
    ensures a + [d] <= b <==> ProperPrefix(Split(a, d), Split(b, d))
  {
    if a + [d] <= b {
      var c := b[|a| + 1..];
      assert b == a + [d] + c;
      SplitConcat(a, c, d);
    }
    if ProperPrefix(Split(a, d), Split(b, d)) {
      var xs, ys := Split(a, d), Split(b, d)[|Split(a, d)|..];
      assert Split(b, d) == xs + ys;
      JoinConcat(xs, ys, [d]);
      JoinUndoesSplit(a, d);
      JoinUndoesSplit(b, d);
    }
  }

  // ------------------------------------------------------------ joined store keys

  const Slash: byte := 47

  function GetJoinedStoreKey(keys: seq<Bytes>): (b: Bytes) {
    Join(keys, [Slash])
  }

  function GetJoinedStoreKeyForPrefix(keys: seq<Bytes>): (b: Bytes) {
    GetJoinedStoreKey(keys) + [Slash]
  }

  function ParseJoinedKey(key: Bytes): (keys: seq<Bytes>) {
    Split(key, Slash)
  }

  function ParseJoinedKeyWithCount(key: Bytes, number: int): (keys: Option<seq<Bytes>>) {
    var list := ParseJoinedKey(key);
    if |list| != number then None else Some(list)
  }

  /** Joined keys are the components with a slash between them, and prefix keys end with one. */
  lemma KeysHaveSlashes(ks: seq<Bytes>, k: Bytes)
    ensures GetJoinedStoreKey([k]) == k
    ensures ks != [] ==> GetJoinedStoreKey(ks + [k]) == GetJoinedStoreKey(ks) + ['/' as int] + k
    ensures GetJoinedStoreKeyForPrefix(ks) == GetJoinedStoreKey(ks) + ['/' as int]
  {
    if ks != [] {
      JoinConcat(ks, [k], [Slash]);
    }
  }

  /** Parsing a joined key gives its components back, with the right count and no other. */
  lemma ParseJoined(keys: seq<Bytes>, number: int)
    requires keys != [] && Free(keys, Slash)
    ensures ParseJoinedKeyWithCount(GetJoinedStoreKey(keys), number) == if number == |keys| then Some(keys) else None
  {
    SplitUndoesJoin(keys, Slash);
  }

  /** A scan by the prefix key of `ps` sees exactly the keys with further components after `ps`. */
  lemma PrefixScan(ps: seq<Bytes>, key: Bytes)
    requires ps != [] && Free(ps, Slash)
    ensures GetJoinedStoreKeyForPrefix(ps) <= key <==> ProperPrefix(ps, ParseJoinedKey(key))
  {
    SplitUndoesJoin(ps, Slash);
    PrefixOfComponents(GetJoinedStoreKey(ps), key, Slash);
  }

  // -------------------------------------------------------------- structured keys

  /** `basicKey`: a key with an optional prefix that is a key itself. */
  datatype Key = Key(prefix: Option<Key>, key: Bytes)

  const Underscore: byte := 95

  function AsKey(k: Key, delimiter: Bytes): (b: Bytes)
    decreases k
  {
    match k.prefix
    case Some(p) => AsKey(p, delimiter) + delimiter + k.key
    case None => k.key
  }

  function Prepend(k: Key, prefix: Key): (r: Key)
    decreases k
  {
    match k.prefix
    case Some(p) => Key(Some(Prepend(p, prefix)), k.key)
    case None => Key(Some(prefix), k.key)
  }

  function Append(k: Key, x: Key): (r: Key) {
    Prepend(x, k)
  }

  function Components(k: Key): (ks: seq<Bytes>)
    ensures ks != []
    decreases k
  {
    match k.prefix
    case Some(p) => Components(p) + [k.key]
    case None => [k.key]
  }

  /** The bytes of a prepended key: the prefix's, the delimiter, the key's own. */
  lemma {:induction false} AsKeyOfPrepend(k: Key, p: Key, d: Bytes)
    ensures AsKey(Prepend(k, p), d) == AsKey(p, d) + d + AsKey(k, d)
    decreases k
  {
    if k.prefix.Some? {
      AsKeyOfPrepend(k.prefix.value, p, d);
      var x, y, z := AsKey(p, d), AsKey(k.prefix.value, d), k.key;
      assert (x + d + y) + d + z == x + d + (y + d + z);
    }
  }

  lemma {:induction false} ComponentsOfPrepend(k: Key, p: Key)
    ensures Components(Prepend(k, p)) == Components(p) + Components(k)
    decreases k
  {
    if k.prefix.Some? {
      ComponentsOfPrepend(k.prefix.value, p);
      var x, y := Components(p), Components(k.prefix.value);
      assert (x + y) + [k.key] == x + (y + [k.key]);
    }
  }

  lemma {:induction false} PrependTwice(k: Key, p: Key, q: Key)
    ensures Prepend(Prepend(k, p), q) == Prepend(k, Prepend(p, q))
    decreases k
  {
    if k.prefix.Some? {
      PrependTwice(k.prefix.value, p, q);
    }
  }

  /** Appending concatenates the components, and the bytes around the delimiter, and is associative. */
  lemma AppendKeys(a: Key, b: Key, c: Key, d: Bytes)
    ensures AsKey(Append(a, b), d) == AsKey(a, d) + d + AsKey(b, d)
    ensures Components(Append(a, b)) == Components(a) + Components(b)
    ensures Append(Append(a, b), c) == Append(a, Append(b, c))
  {
    AsKeyOfPrepend(b, a, d);
    ComponentsOfPrepend(b, a);
    PrependTwice(c, b, a);
  }

  /** Flattening a key of any depth is joining its components. */
  lemma {:induction false} AsKeyIsJoin(k: Key, d: Bytes)
    ensures AsKey(k, d) == Join(Components(k), d)
    decreases k
  {
    if k.prefix.Some? {
      AsKeyIsJoin(k.prefix.value, d);
      JoinConcat(Components(k.prefix.value), [k.key], d);
    }
  }

  /** The prefix iterator of a structured key sees, among keys without underscores in their
      components, exactly those whose components extend it. */
  lemma StructuredPrefixScan(p: Key, k: Key)
    requires Free(Components(p), '_' as int) && Free(Components(k), '_' as int)
    ensures AsKey(p, [Underscore]) + ['_' as int] <= AsKey(k, [Underscore]) <==> ProperPrefix(Components(p), Components(k))
  {
    AsKeyIsJoin(p, [Underscore]);
    AsKeyIsJoin(k, [Underscore]);
    SplitUndoesJoin(Components(p), Underscore);
    SplitUndoesJoin(Components(k), Underscore);
    PrefixOfComponents(AsKey(p, [Underscore]), AsKey(k, [Underscore]), Underscore);
  }
}
