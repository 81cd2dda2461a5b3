/** The lexicographic order of byte strings, as `bytes.Compare` and the key-value store use it. */
module ByteOrder {
  import opened Common
  import opened Order

  predicate ByteLess(a: Bytes, b: Bytes) {
    b != [] && (a == [] || a[0] < b[0] || (a[0] == b[0] && ByteLess(a[1..], b[1..])))
  }

  lemma {:induction false} ByteLessTotal(a: Bytes, b: Bytes)
    ensures ByteLess(a, b) || a == b || ByteLess(b, a)
    ensures !(ByteLess(a, b) && ByteLess(b, a))
  {
    if a != [] && b != [] {
      ByteLessTotal(a[1..], b[1..]);
      assert a == [a[0]] + a[1..] && b == [b[0]] + b[1..];
    }
  }

  lemma {:induction false} ByteLessTransitive(a: Bytes, b: Bytes, c: Bytes)
    requires ByteLess(a, b) && ByteLess(b, c)
    ensures ByteLess(a, c)
  {
    if a != [] && a[0] == b[0] == c[0] {
      ByteLessTransitive(a[1..], b[1..], c[1..]);
    }
  }

  lemma NotLessTransitive(a: Bytes, b: Bytes, c: Bytes)
    requires !ByteLess(b, a) && !ByteLess(c, b)
    ensures !ByteLess(c, a)
  {
    hide ByteLess;
    ByteLessTotal(a, b);
    ByteLessTotal(b, c);
    ByteLessTotal(a, c);
    if ByteLess(a, b) && ByteLess(b, c) {
      ByteLessTransitive(a, b, c);
    }
  }

  /** At the first place where the strings differ the first one has the smaller byte, or has ended. */
  ghost predicate SmallerAt(a: Bytes, b: Bytes, m: nat) {
    m <= |a| && m < |b| && a[..m] == b[..m] && (m < |a| ==> a[m] < b[m])
  }

  lemma {:induction false} ByteLessAtFirstDifference(a: Bytes, b: Bytes)
    ensures ByteLess(a, b) <==> exists m: nat :: SmallerAt(a, b, m)
  {
    if ByteLess(a, b) {
      if a == [] || a[0] < b[0] {
        assert SmallerAt(a, b, 0);
      } else {
        ByteLessAtFirstDifference(a[1..], b[1..]);
        var m: nat :| SmallerAt(a[1..], b[1..], m);
        assert a[..m + 1] == [a[0]] + a[1..][..m] && b[..m + 1] == [b[0]] + b[1..][..m];
        assert SmallerAt(a, b, m + 1);
      }
    }
    if m: nat :| SmallerAt(a, b, m) {
      if m > 0 {
        assert a[0] == a[..m][0] && b[0] == b[..m][0];
        assert a[1..][..m - 1] == a[..m][1..] && b[1..][..m - 1] == b[..m][1..];
        assert SmallerAt(a[1..], b[1..], m - 1);
        ByteLessAtFirstDifference(a[1..], b[1..]);
      }
    }
  }

  lemma ByteLessIsStrict()
    ensures Strict(ByteLess)
  {
    forall a, b ensures ByteLess(a, b) || a == b || ByteLess(b, a) { ByteLessTotal(a, b); }
    forall a ensures !ByteLess(a, a) { ByteLessTotal(a, a); }
    forall a, b, c | ByteLess(a, b) && ByteLess(b, c) ensures ByteLess(a, c) { ByteLessTransitive(a, b, c); }
  }
}
