/** What every step of the oracle mempool keeps, and what its counter is worth (app/mempool.go). */
module PoolInvariant {
  import opened Common
  import opened OracleTx
  import opened Pool

  // ------------------------------------------------------- structural invariant

  lemma InsertKeepsValid(p: Pool, tx: Tx, parsed: Option<Body>)
    requires Valid(p.cache)
    ensures Valid(InsertStep(p, tx, parsed).0.cache)
  {
    var q := InsertStep(p, tx, parsed).0;
    if q != p {
      var piece := PieceOf(tx, parsed.value);
      var s := SlotAt(p.cache, FeederOf(tx), piece.index);
      assert ValidSlot(s + [piece], FeederOf(tx), piece.index);
      WithSlotValid(p.cache, FeederOf(tx), piece.index, s + [piece]);
    }
  }

  lemma WithSlotValid(c: Cache, f: FeederId, i: PieceIndex, s: seq<Piece>)
    requires Valid(c) && ValidSlot(s, f, i)
    ensures Valid(WithSlot(c, f, i, s))
  {
    var d := WithSlot(c, f, i, s);
    assert i in d[f];
    forall g | g in d
      ensures ValidSlots(d[g], g)
    {
      if g != f {
        assert d[g] == c[g];
      } else if f in c {
        assert ValidSlots(c[f], f);
      }
    }
  }

  lemma CutValid(c: Cache, f: FeederId, i: PieceIndex)
    requires Valid(c)
    ensures Valid(CutCache(c, f, i))
  {
    if f in c {
      assert ValidSlots(c[f], f);
    }
  }

  lemma {:induction false} CurrentIsSubset(s: seq<Piece>, b: BlockNumber)
    ensures forall k :: 0 <= k < |Current(s, b)| ==> Current(s, b)[k] in s && Current(s, b)[k].baseBlock == b
  {
    if s != [] {
      CurrentIsSubset(s[..|s| - 1], b);
    }
  }

  lemma {:induction false} CurrentNoEqualPieces(s: seq<Piece>, b: BlockNumber)
    requires NoEqualPieces(s)
    ensures NoEqualPieces(Current(s, b))
  {
    if s != [] {
      var init := s[..|s| - 1];
      CurrentNoEqualPieces(init, b);
      CurrentIsSubset(init, b);
      forall k | 0 <= k < |Current(init, b)|
        ensures !EqualsTo(Current(init, b)[k], s[|s| - 1])
      {
        var l :| 0 <= l < |init| && init[l] == Current(init, b)[k];
        assert s[l] == init[l];
      }
    }
  }

  lemma CurrentValid(s: seq<Piece>, f: FeederId, i: PieceIndex, b: BlockNumber)
    requires ValidSlot(s, f, i) && Current(s, b) != []
    ensures ValidSlot(Current(s, b), f, i)
  {
    CurrentIsSubset(s, b);
    CurrentNoEqualPieces(s, b);
  }

  lemma SurvivorsValid(c: Cache, collecting: map<FeederId, BlockNumber>)
    requires Valid(c)
    ensures Valid(Survivors(c, collecting))
  {
    var d := Survivors(c, collecting);
    forall f | f in d
      ensures ValidSlots(d[f], f)
    {
      assert ValidSlots(c[f], f);
      forall i | i in d[f]
        ensures ValidSlot(d[f][i], f, i)
      {
        CurrentValid(c[f][i], f, i, collecting[f]);
      }
    }
  }

  lemma PickValid(c: Cache, f: FeederId, i: PieceIndex)
    requires Valid(c)
    ensures Valid(PickCache(c, f, i))
  {
    var s := SlotAt(c, f, i);
    if s != [] {
      assert ValidSlots(c[f], f);
      assert ValidSlot(s, f, i);
      RotateValid(s, f, i);
      WithSlotValid(c, f, i, Rotate(s));
    }
  }

  lemma RotateValid(s: seq<Piece>, f: FeederId, i: PieceIndex)
    requires ValidSlot(s, f, i)
    ensures ValidSlot(Rotate(s), f, i)
  {
    var r := Rotate(s);
    if |s| > 1 {
      forall k, l | 0 <= k < l < |r|
        ensures !EqualsTo(r[k], r[l])
      {
        assert r[k] == s[k + 1];
        assert l < |s| - 1 ==> r[l] == s[l + 1];
        assert !EqualsTo(s[0], s[k + 1]);
      }
    }
  }

  lemma {:induction false} FillValid(c: Cache, fs: seq<FeederId>, next: map<FeederId, PieceIndex>)
    requires Valid(c)
    ensures Valid(FillCache(c, fs, next))
  {
    if fs != [] {
      var f := fs[|fs| - 1];
      FillValid(c, fs[..|fs| - 1], next);
      if f in next {
        PickValid(FillCache(c, fs[..|fs| - 1], next), f, next[f]);
      }
    }
  }

  // -------------------------------------------------------------------- counter

  lemma TotalNone()
    ensures Total(map[]) == 0
  {
    var c: Cache := map[];
    assert Totals(c) == map[];
  }

  lemma SizeNone()
    ensures Size(map[]) == 0
  {
    var m: Slots := map[];
    assert Sizes(m) == map[];
  }

  lemma WithSlotTotal(c: Cache, f: FeederId, i: PieceIndex, s: seq<Piece>)
    ensures Total(WithSlot(c, f, i, s)) == Total(c) - |SlotAt(c, f, i)| + |s|
  {
    hide Size, Total;
    if f in c {
      TotalPut(c, f, c[f][i := s]);
      TotalWithout(c, f);
      SizePut(c[f], i, s);
      if i in c[f] {
        SizeWithout(c[f], i);
      } else {
        assert c[f] - {i} == c[f];
      }
    } else {
      TotalPut(c, f, map[i := s]);
      assert c - {f} == c;
      var m: Slots := map[];
      SizePut(m, i, s);
      assert m - {i} == m;
      SizeNone();
    }
  }

  lemma InsertKeepsDrift(p: Pool, tx: Tx, parsed: Option<Body>)
    ensures Drift(InsertStep(p, tx, parsed).0) == Drift(p)
  {
    if InsertStep(p, tx, parsed).0 != p {
      var piece := PieceOf(tx, parsed.value);
      var s := SlotAt(p.cache, FeederOf(tx), piece.index);
      WithSlotTotal(p.cache, FeederOf(tx), piece.index, s + [piece]);
    }
  }

  lemma SizeSplit(m: Slots, i: PieceIndex)
    ensures Size(m) == Size(UpTo(m, i)) + Size(Above(m, i))
  {
    hide Sum;
    var w := Sizes(m);
    SumSplit(w, UpTo(m, i).Keys);
    assert (map j | j in w && j in UpTo(m, i).Keys :: w[j]) == Sizes(UpTo(m, i));
    assert w - UpTo(m, i).Keys == Sizes(Above(m, i));
  }

  lemma CutKeepsDrift(p: Pool, f: FeederId, i: PieceIndex)
    ensures Drift(Cut(p, f, i)) == Drift(p)
  {
    hide Size, Total, Above, UpTo;
    if f in p.cache {
      SizeSplit(p.cache[f], i);
      TotalWithout(p.cache, f);
      TotalPut(p.cache, f, Above(p.cache[f], i));
      SizeNone();
    }
  }

  lemma RemoveKeepsDrift(p: Pool, tx: Tx, parsed: Option<Body>)
    ensures Drift(RemoveStep(p, tx, parsed).0) == Drift(p)
  {
    if IsRawData(tx) && FeederOf(tx) in p.cache {
      var f := FeederOf(tx);
      if parsed.Some? {
        CutKeepsDrift(p, f, parsed.value.index);
      } else if p.cache[f] == map[] {
        TotalWithout(p.cache, f);
        assert Sizes(p.cache[f]) == map[];
      }
    }
  }

  lemma PickKeepsTotal(c: Cache, f: FeederId, i: PieceIndex)
    ensures Total(PickCache(c, f, i)) == Total(c)
  {
    WithSlotTotal(c, f, i, Rotate(SlotAt(c, f, i)));
  }

  lemma {:induction false} FillKeepsTotal(c: Cache, fs: seq<FeederId>, next: map<FeederId, PieceIndex>)
    ensures Total(FillCache(c, fs, next)) == Total(c)
  {
    if fs != [] {
      var f := fs[|fs| - 1];
      FillKeepsTotal(c, fs[..|fs| - 1], next);
      if f in next {
        PickKeepsTotal(FillCache(c, fs[..|fs| - 1], next), f, next[f]);
      }
    }
  }

  /** Within one feeder every piece is current or stale. */
  lemma SizeCurrentOrStale(m: Slots, b: BlockNumber)
    ensures Size(m) == Size(CurrentSlots(m, b)) + StaleIn(m, b)
  {
    var u := map i | i in m :: |Current(m[i], b)|;
    SumPlus(Sizes(m), u, StaleSizes(m, b));
    SumNonZero(u, Sizes(CurrentSlots(m, b)));
  }

  ghost function CollectingSizes(c: Cache, collecting: map<FeederId, BlockNumber>): (w: map<FeederId, nat>) {
    map f | f in c && f in collecting :: Size(c[f])
  }

  ghost function CurrentSizes(c: Cache, collecting: map<FeederId, BlockNumber>): (w: map<FeederId, nat>) {
    map f | f in c && f in collecting :: Size(CurrentSlots(c[f], collecting[f]))
  }

  lemma CollectingSplit(c: Cache, collecting: map<FeederId, BlockNumber>)
    ensures Sum(CollectingSizes(c, collecting)) == Sum(CurrentSizes(c, collecting)) + Stale(c, collecting)
  {
    var w, u, v := CollectingSizes(c, collecting), CurrentSizes(c, collecting), StaleTotals(c, collecting);
    forall f | f in w
      ensures w[f] == u[f] + v[f]
    {
      SizeCurrentOrStale(c[f], collecting[f]);
    }
    SumPlus(w, u, v);
  }

  lemma SurvivorsTotal(c: Cache, collecting: map<FeederId, BlockNumber>)
    ensures Total(Survivors(c, collecting)) == Sum(CurrentSizes(c, collecting))
  {
    var u, v := CurrentSizes(c, collecting), Totals(Survivors(c, collecting));
    forall f | f in u
      ensures u[f] == 0 <==> CurrentSlots(c[f], collecting[f]) == map[]
    {
      SizeZero(CurrentSlots(c[f], collecting[f]));
      CurrentSlotsFull(c[f], collecting[f]);
    }
    SumNonZero(u, v);
  }

  lemma SizeZero(m: Slots)
    ensures Size(m) == 0 <==> forall i :: i in m ==> m[i] == []
  {
    SumZero(Sizes(m));
    assert forall i :: i in m ==> Sizes(m)[i] == |m[i]|;
  }

  lemma CurrentSlotsFull(m: Slots, b: BlockNumber)
    ensures (forall i :: i in CurrentSlots(m, b) ==> CurrentSlots(m, b)[i] == []) <==> CurrentSlots(m, b) == map[]
  {
  }

  /** Every cached piece survives, is stale, or belongs to a feeder that no longer collects. */
  lemma TotalSplit(c: Cache, collecting: map<FeederId, BlockNumber>)
    ensures Total(c) == Total(Survivors(c, collecting)) + Stale(c, collecting) + Dropped(c, collecting)
  {
    hide Sum, Size, Survivors;
    var w := Totals(c);
    SumSplit(w, collecting.Keys);
    assert (map f | f in w && f in collecting.Keys :: w[f]) == CollectingSizes(c, collecting);
    assert w - collecting.Keys == Totals(c - collecting.Keys);
    CollectingSplit(c, collecting);
    SurvivorsTotal(c, collecting);
  }

  /** How a purge moves the counter against the cache: up by the pieces of dropped feeders if
      anything survives, else down by the stale pieces. */
  lemma PurgeDrift(p: Pool, collecting: map<FeederId, BlockNumber>)
    ensures Drift(PurgeStep(p, collecting))
         == if Survivors(p.cache, collecting) != map[] then Drift(p) + Dropped(p.cache, collecting)
            else Drift(p) - Stale(p.cache, collecting)
  {
    TotalSplit(p.cache, collecting);
  }

  /** A feeder is cached although it no longer collects. */
  ghost predicate SomeFeederDropped(c: Cache, collecting: map<FeederId, BlockNumber>) {
    exists f :: f in c && f !in collecting
  }

  /** Position `k` of a slot holds a piece, based on the block its feeder collects for or not. */
  predicate Matches(c: Cache, collecting: map<FeederId, BlockNumber>, f: FeederId, i: PieceIndex, k: nat, current: bool) {
    && f in c && f in collecting && i in c[f] && k < |c[f][i]|
    && (c[f][i][k].baseBlock == collecting[f]) == current
  }

  ghost predicate SomePieceStale(c: Cache, collecting: map<FeederId, BlockNumber>) {
    exists f, i, k :: Matches(c, collecting, f, i, k, false)
  }

  ghost predicate SomePieceSurvives(c: Cache, collecting: map<FeederId, BlockNumber>) {
    exists f, i, k :: Matches(c, collecting, f, i, k, true)
  }

  lemma {:induction false} CurrentCount(s: seq<Piece>, b: BlockNumber)
    ensures Current(s, b) == [] <==> forall k :: 0 <= k < |s| ==> s[k].baseBlock != b
    ensures StaleOf(s, b) == 0 <==> forall k :: 0 <= k < |s| ==> s[k].baseBlock == b
  {
    if s != [] {
      var init := s[..|s| - 1];
      CurrentCount(init, b);
      assert forall k :: 0 <= k < |s| ==> k == |s| - 1 || s[k] == init[k];
      assert forall k :: 0 <= k < |init| ==> s[k] == init[k];
    }
  }

  lemma DroppedZero(c: Cache, collecting: map<FeederId, BlockNumber>)
    requires Valid(c)
    ensures Dropped(c, collecting) == 0 <==> !SomeFeederDropped(c, collecting)
  {
    var rest := c - collecting.Keys;
    SumZero(Totals(rest));
    forall f | f in rest
      ensures Totals(rest)[f] != 0
    {
      assert ValidSlots(c[f], f);
      var i :| i in c[f];
      assert ValidSlot(c[f][i], f, i);
      SizeZero(c[f]);
    }
    assert forall f :: f in rest <==> f in c && f !in collecting;
  }

  lemma StaleZero(c: Cache, collecting: map<FeederId, BlockNumber>)
    ensures Stale(c, collecting) == 0 <==> !SomePieceStale(c, collecting)
  {
    var w := StaleTotals(c, collecting);
    SumZero(w);
    forall f | f in w
      ensures w[f] == 0 <==> forall i, k :: !Matches(c, collecting, f, i, k, false)
    {
      StaleInZero(c, collecting, f);
    }
    if SomePieceStale(c, collecting) {
      var f, i, k :| Matches(c, collecting, f, i, k, false);
      assert f in w;
    }
  }

  lemma StaleInZero(c: Cache, collecting: map<FeederId, BlockNumber>, f: FeederId)
    requires f in c && f in collecting
    ensures StaleIn(c[f], collecting[f]) == 0 <==> forall i, k :: !Matches(c, collecting, f, i, k, false)
  {
    var w := StaleSizes(c[f], collecting[f]);
    SumZero(w);
    forall i | i in c[f]
      ensures w[i] == 0 <==> forall k :: !Matches(c, collecting, f, i, k, false)
    {
      CurrentCount(c[f][i], collecting[f]);
      assert forall k :: 0 <= k < |c[f][i]| ==> (c[f][i][k].baseBlock == collecting[f]) == !Matches(c, collecting, f, i, k, false);
    }
  }

  lemma SurvivorsNonEmpty(c: Cache, collecting: map<FeederId, BlockNumber>)
    ensures Survivors(c, collecting) != map[] <==> SomePieceSurvives(c, collecting)
  {
    var d := Survivors(c, collecting);
    if d != map[] {
      var f :| f in d;
      var i :| i in d[f];
      CurrentCount(c[f][i], collecting[f]);
      var k :| 0 <= k < |c[f][i]| && c[f][i][k].baseBlock == collecting[f];
      assert Matches(c, collecting, f, i, k, true);
    }
    if SomePieceSurvives(c, collecting) {
      var f, i, k :| Matches(c, collecting, f, i, k, true);
      CurrentCount(c[f][i], collecting[f]);
      assert i in CurrentSlots(c[f], collecting[f]);
      assert f in d;
    }
  }

  /** A purge keeps an exact counter exact in just these cases: something survives and every
      cached feeder still collects, or nothing survives and no collecting feeder has a stale piece. */
  lemma PurgeKeepsCountExact(p: Pool, collecting: map<FeederId, BlockNumber>)
    requires Valid(p.cache) && Drift(p) == 0
    ensures Drift(PurgeStep(p, collecting)) == 0 <==>
              if SomePieceSurvives(p.cache, collecting) then !SomeFeederDropped(p.cache, collecting)
              else !SomePieceStale(p.cache, collecting)
  {
    hide Drift, Dropped, Stale, Survivors, SomePieceStale, SomeFeederDropped, SomePieceSurvives;
    PurgeDrift(p, collecting);
    DroppedZero(p.cache, collecting);
    StaleZero(p.cache, collecting);
    SurvivorsNonEmpty(p.cache, collecting);
  }

  /** Every cached piece belongs to a collecting feeder and is based on its block. */
  ghost predicate AllCurrent(c: Cache, collecting: map<FeederId, BlockNumber>) {
    forall f, i, k :: Occupied(c, f, i, k) ==> Matches(c, collecting, f, i, k, true)
  }

  predicate Occupied(c: Cache, f: FeederId, i: PieceIndex, k: nat) {
    f in c && i in c[f] && k < |c[f][i]|
  }

  /** A purge is meant to leave only current pieces. It does unless every piece is expired:
      then they all stay. */
  lemma PurgeLeavesOnlyCurrent(p: Pool, collecting: map<FeederId, BlockNumber>)
    requires Valid(p.cache)
    ensures AllCurrent(PurgeStep(p, collecting).cache, collecting) <==>
              p.cache == map[] || SomePieceSurvives(p.cache, collecting)
  {
    SurvivorsNonEmpty(p.cache, collecting);
    var c: Cache, d: Cache := p.cache, Survivors(p.cache, collecting);
    if d != map[] {
      forall f, i, k | Occupied(d, f, i, k)
        ensures Matches(d, collecting, f, i, k, true)
      {
        CurrentIsSubset(c[f][i], collecting[f]);
      }
    } else if c != map[] {
      var f :| f in c;
      assert ValidSlots(c[f], f);
      var i :| i in c[f];
      assert ValidSlot(c[f][i], f, i);
      assert Occupied(c, f, i, 0) && !Matches(c, collecting, f, i, 0, true);
    }
  }
}
