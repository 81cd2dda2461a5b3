/** `ImuaMempool` and `ImuaMemIterator` of app/mempool.go: every method changes the state by the
    step function of module `Pool`. What the keeper and the decoder answer is passed in. */
module Mempool {
  import opened Common
  import opened OracleTx
  import opened Order
  import opened Pool

  /** `ImuaMemIterator`, over a list that is not empty. */
  class ImuaMemIterator {
    const txList: seq<Tx>
    var cursor: nat

    constructor (txList: seq<Tx>)
      ensures this.txList == txList && cursor == 0
    {
      this.txList, cursor := txList, 0;
    }

    method Next() returns (next: ImuaMemIterator?)
      modifies this
      ensures if old(cursor) + 1 < |txList| then next == this && cursor == old(cursor) + 1
              else next == null && cursor == old(cursor)
    {
      if cursor >= |txList| - 1 {
        return null;
      }
      cursor := cursor + 1;
      return this;
    }

    method Current() returns (tx: Option<Tx>)
      ensures tx == if cursor < |txList| then Some(txList[cursor]) else None
    {
      if cursor < |txList| {
        return Some(txList[cursor]);
      }
      return None;
    }
  }

  /** A consumer that asks for the transaction and then for the next iterator until there is none
      visits the rest of the list once and in order. */
  method Drain(it: ImuaMemIterator?) returns (txs: seq<Tx>)
    requires it != null ==> it.cursor < |it.txList|
    modifies it
    ensures txs == if it == null then [] else it.txList[old(it.cursor)..]
  {
    txs := [];
    var cur := it;
    while cur != null
      invariant cur != null ==> cur == it && it.cursor < |it.txList|
      invariant it == null ==> txs == []
      invariant it != null ==> old(it.cursor) <= it.cursor
      invariant it != null ==> txs == it.txList[old(it.cursor)..if cur == null then |it.txList| else it.cursor]
      decreases if cur == null then 0 else 1 + |cur.txList| - cur.cursor
    {
      var tx := cur.Current();
      txs := txs + [tx.value];
      cur := cur.Next();
    }
    assert it != null ==> it.txList[old(it.cursor)..|it.txList|] == it.txList[old(it.cursor)..];
  }

  class ImuaMempool {
    var cachedPieces: Cache
    var count: int

    ghost function State(): (p: Pool)
      reads this
    {
      Pool(cachedPieces, count)
    }

    constructor ()
      ensures State() == Empty
    {
      cachedPieces, count := map[], 0;
    }

    method Insert(tx: Tx, parsed: Option<Body>) returns (r: Outcome)
      modifies this
      ensures (State(), r) == InsertStep(old(State()), tx, parsed)
    {
      hide IsMixed, OracleMsgs;
      var hasOracle := IncludesMsgOracle(tx);
      if !hasOracle {
        return Done;
      }
      var _, _, isRawData, _ := IsValidOracleTx(tx);
      if !isRawData {
        return Done;
      }
      if parsed.None? {
        return Failed;
      }
      var piece := PieceOf(tx, parsed.value);
      var fID := FeederOf(tx);
      assert [] + [piece] == [piece];
      if fID !in cachedPieces {
        cachedPieces := cachedPieces[fID := map[piece.index := [piece]]];
        count := count + 1;
        return Done;
      }
      var piecesCached: Slots := cachedPieces[fID];
      if piece.index !in piecesCached {
        cachedPieces := cachedPieces[fID := piecesCached[piece.index := [piece]]];
        count := count + 1;
        return Done;
      }
      var slot := piecesCached[piece.index];
      for k := 0 to |slot|
        invariant forall l :: 0 <= l < k ==> !EqualsTo(slot[l], piece)
      {
        if EqualsTo(slot[k], piece) {
          return Failed;
        }
      }
      cachedPieces := cachedPieces[fID := piecesCached[piece.index := slot + [piece]]];
      count := count + 1;
      return Done;
    }

    method Select(
      collecting: map<FeederId, BlockNumber>, request: seq<Option<Tx>>, next: map<FeederId, PieceIndex>
    ) returns (it: ImuaMemIterator?)
      modifies this
      ensures it != null ==> fresh(it) && it.cursor == 0 && it.txList != []
      ensures (State(), if it == null then [] else it.txList)
           == SelectStep(old(State()), collecting, request, next)
    {
      hide Missing, Kept, Decoded, NonRaws, Fills, FillCache, PurgeStep;
      if |collecting| == 0 {
        Reset();
        var txDecodedList := DecodeNonRaw(request);
        if |txDecodedList| > 0 {
          it := new ImuaMemIterator(txDecodedList);
          return;
        }
        return null;
      }
      ClearExpiredFeederIDcache(collecting);
      var keep, seenFeederIDs := KeepFirst(request, collecting.Keys);
      ghost var missing := Missing(Decoded(request), collecting.Keys);
      MissingCollects(Decoded(request), collecting.Keys);
      if |seenFeederIDs| < |collecting| {
        var filled := FillMissing(collecting.Keys, seenFeederIDs, next, missing);
        keep := keep + filled;
      } else {
        SubsetSize(seenFeederIDs, collecting.Keys);
        assert missing == {};
        FillNone(cachedPieces, next);
        assert keep + [] == keep;
      }
      if |keep| > 0 {
        it := new ImuaMemIterator(keep);
        return;
      }
      return null;
    }

    /** The request when no feeder collects: everything but raw data. */
    method DecodeNonRaw(request: seq<Option<Tx>>) returns (keep: seq<Tx>)
      ensures keep == NonRaws(Decoded(request))
    {
      keep := [];
      for k := 0 to |request|
        invariant keep == NonRaws(Decoded(request[..k]))
      {
        DecodedPush(request, k);
        if request[k].None? {
          continue;
        }
        NonRawsPush(Decoded(request[..k]), request[k].value);
        var isPhaseTwo := IsOraclePhaseTwoTx(request[k].value);
        if isPhaseTwo {
          continue;
        }
        keep := keep + [request[k].value];
      }
      assert request[..|request|] == request;
    }

    /** The first loop of `Select`, over the request. */
    method KeepFirst(request: seq<Option<Tx>>, collecting: set<FeederId>)
      returns (keep: seq<Tx>, seenFeederIDs: set<FeederId>)
      ensures keep == Kept(Decoded(request), collecting)
      ensures seenFeederIDs == collecting - Missing(Decoded(request), collecting)
    {
      hide Decoded, Kept, Missing, IsMixed, HasOracleMsg, OracleMsgs;
      keep, seenFeederIDs := [], {};
      KeptNone(collecting);
      ghost var txs := [];
      for k := 0 to |request|
        invariant txs == Decoded(request[..k])
        invariant keep == Kept(txs, collecting)
        invariant seenFeederIDs == collecting - Missing(txs, collecting)
      {
        DecodedPush(request, k);
        if request[k].None? {
          continue;
        }
        var tx := request[k].value;
        KeptPush(txs, tx, collecting);
        MissingCollects(txs, collecting);
        txs := txs + [tx];
        var msgs, _, isRawData, _ := IsValidOracleTx(tx);
        if !isRawData {
          keep := keep + [tx];
          continue;
        }
        if FeederOf(tx) in seenFeederIDs {
          continue;
        }
        if FeederOf(tx) !in collecting {
          continue;
        }
        keep := keep + [tx];
        seenFeederIDs := seenFeederIDs + {FeederOf(tx)};
      }
      assert request[..|request|] == request;
    }

    /** The second loop of `Select`, over the collecting feeders the request has nothing for. */
    method FillMissing(
      collecting: set<FeederId>, seen: set<FeederId>, next: map<FeederId, PieceIndex>, ghost missing: set<FeederId>
    ) returns (filled: seq<Tx>)
      requires missing <= collecting && seen == collecting - missing
      modifies this
      ensures count == old(count)
      ensures cachedPieces == FillCache(old(cachedPieces), Listing(Ascending, missing), next)
      ensures filled == Fills(old(cachedPieces), Listing(Ascending, missing), next)
    {
      hide FillCache, Fills, PickCache, HeadAt, Sorted, Listing;
      filled := [];
      FillNone(cachedPieces, next);
      var cFIDKeys := SortSet(Ascending, collecting);
      var seenFeederIDs := seen;
      for k := 0 to |cFIDKeys|
        invariant count == old(count)
        invariant seenFeederIDs == seen + set f | f in Restrict(cFIDKeys[..k], missing)
        invariant cachedPieces == FillCache(old(cachedPieces), Restrict(cFIDKeys[..k], missing), next)
        invariant filled == Fills(old(cachedPieces), Restrict(cFIDKeys[..k], missing), next)
      {
        var expectedFeederID := cFIDKeys[k];
        assert expectedFeederID in cFIDKeys;
        RestrictPush(cFIDKeys, k, missing);
        RestrictPrefix(cFIDKeys, k, missing);
        if expectedFeederID in seenFeederIDs {
          continue;
        }
        seenFeederIDs := seenFeederIDs + {expectedFeederID};
        FillPush(old(cachedPieces), Restrict(cFIDKeys[..k], missing), expectedFeederID, next);
        if expectedFeederID !in next {
          continue;
        }
        var tx := GetTxByFeederIDPieceIndex(expectedFeederID, next[expectedFeederID]);
        if tx.Some? {
          filled := filled + [tx.value];
        }
      }
      assert cFIDKeys[..|cFIDKeys|] == cFIDKeys;
      RestrictSorted(cFIDKeys, missing);
      SortedIsUnique(Ascending, Restrict(cFIDKeys, missing), Listing(Ascending, missing));
    }

    method Remove(tx: Tx, parsed: Option<Body>) returns (r: Outcome)
      modifies this
      ensures (State(), r) == RemoveStep(old(State()), tx, parsed)
    {
      hide CutCache, Above, UpTo, Size, IsMixed, HasOracleMsg, OracleMsgs;
      var _, _, isRawData, _ := IsValidOracleTx(tx);
      if !isRawData {
        return Done;
      }
      var fID := FeederOf(tx);
      if fID !in cachedPieces {
        return Done;
      }
      var piecesCached: Slots := cachedPieces[fID];
      if parsed.None? && piecesCached != map[] {
        // The first round of the loop compares with the index of a nil piece.
        return Panicked;
      }
      var newPiecesCached: Slots := map[];
      if parsed.Some? {
        CutCacheByLength(cachedPieces, fID, parsed.value.index);
        newPiecesCached := CutSlots(piecesCached, parsed.value.index);
      }
      if |newPiecesCached| == 0 {
        cachedPieces := cachedPieces - {fID};
      } else if |newPiecesCached| < |piecesCached| {
        cachedPieces := cachedPieces[fID := newPiecesCached];
      }
      return Done;
    }

    /** The loop of `Remove`. */
    method CutSlots(piecesCached: Slots, cut: PieceIndex) returns (newPiecesCached: Slots)
      modifies this`count
      ensures newPiecesCached == Above(piecesCached, cut)
      ensures count == old(count) - Size(UpTo(piecesCached, cut))
    {
      newPiecesCached := map[];
      var todo := piecesCached.Keys;
      while todo != {}
        invariant todo <= piecesCached.Keys
        invariant newPiecesCached == Above(piecesCached - todo, cut)
        invariant count == old(count) - Size(UpTo(piecesCached - todo, cut))
        decreases todo
      {
        var index :| index in todo;
        if index > cut {
          newPiecesCached := newPiecesCached[index := piecesCached[index]];
        } else {
          count := count - |piecesCached[index]|;
        }
        AboveStep(piecesCached, todo, index, cut);
        UpToStep(piecesCached, todo, index, cut);
        todo := todo - {index};
      }
      assert piecesCached - {} == piecesCached;
    }

    method IncludesMsgOracle(tx: Tx) returns (r: bool)
      ensures r <==> HasOracleMsg(tx)
    {
      for i := 0 to |tx.msgs|
        invariant forall k :: 0 <= k < i ==> !tx.msgs[k].CreatePrice?
      {
        if tx.msgs[i].CreatePrice? {
          return true;
        }
      }
      return false;
    }

    /** `getTxByFeederIDPieceIndex`: the first piece of the slot moves to its end. */
    method GetTxByFeederIDPieceIndex(feederID: FeederId, pieceIndex: PieceIndex) returns (tx: Option<Tx>)
      modifies this
      ensures count == old(count)
      ensures cachedPieces == PickCache(old(cachedPieces), feederID, pieceIndex)
      ensures HeadAt(old(cachedPieces), feederID, pieceIndex) == if tx.Some? then [tx.value] else []
    {
      if feederID !in cachedPieces {
        return None;
      }
      var pwf: Slots := cachedPieces[feederID];
      if pieceIndex !in pwf || |pwf[pieceIndex]| == 0 {
        return None;
      }
      var slot := pwf[pieceIndex];
      if |slot| > 1 {
        slot := slot[1..] + [slot[0]];
        cachedPieces := cachedPieces[feederID := pwf[pieceIndex := slot]];
      } else {
        assert pwf[pieceIndex := slot] == pwf;
        assert cachedPieces[feederID := pwf] == cachedPieces;
      }
      return Some(slot[|slot| - 1].tx);
    }

    method Reset()
      modifies this
      ensures State() == Empty
    {
      cachedPieces := map[];
      count := 0;
    }

    /** The innermost loop of `clearExpiredFeederIDcache`, over one slot. */
    method PurgeSlot(pwpList: seq<Piece>, startBaseBlock: BlockNumber) returns (newPwpList: seq<Piece>)
      modifies this`count
      ensures newPwpList == Current(pwpList, startBaseBlock)
      ensures count == old(count) - StaleOf(pwpList, startBaseBlock)
    {
      newPwpList := [];
      for k := 0 to |pwpList|
        invariant newPwpList == Current(pwpList[..k], startBaseBlock)
        invariant count == old(count) - (k - |newPwpList|)
      {
        assert pwpList[..k + 1][..k] == pwpList[..k];
        if pwpList[k].baseBlock == startBaseBlock {
          newPwpList := newPwpList + [pwpList[k]];
        } else {
          count := count - 1;
        }
      }
      assert pwpList[..|pwpList|] == pwpList;
    }

    /** The middle loop, over one feeder's slots. */
    method PurgeFeeder(pieceMap: Slots, startBaseBlock: BlockNumber) returns (kept: Slots)
      modifies this`count
      ensures kept == CurrentSlots(pieceMap, startBaseBlock)
      ensures count == old(count) - StaleIn(pieceMap, startBaseBlock)
    {
      kept := map[];
      var todo := pieceMap.Keys;
      while todo != {}
        invariant todo <= pieceMap.Keys
        invariant kept == CurrentSlots(pieceMap - todo, startBaseBlock)
        invariant count == old(count) - StaleIn(pieceMap - todo, startBaseBlock)
        decreases todo
      {
        var pieceIdx :| pieceIdx in todo;
        var newPwpList := PurgeSlot(pieceMap[pieceIdx], startBaseBlock);
        if |newPwpList| > 0 {
          kept := kept[pieceIdx := newPwpList];
        }
        CurrentSlotsStep(pieceMap, todo, pieceIdx, startBaseBlock);
        StaleInStep(pieceMap, todo, pieceIdx, startBaseBlock);
        todo := todo - {pieceIdx};
      }
      assert pieceMap - {} == pieceMap;
    }

    method ClearExpiredFeederIDcache(collecting: map<FeederId, BlockNumber>)
      modifies this
      ensures State() == PurgeStep(old(State()), collecting)
    {
      hide Survivors, Stale, StaleIn, CurrentSlots;
      var pieces: Cache := cachedPieces;
      NothingSurvivesYet(pieces, collecting);
      var newCachedPieces: Cache := map[];
      var todo := pieces.Keys;
      while todo != {}
        invariant cachedPieces == pieces && todo <= pieces.Keys
        invariant newCachedPieces == Survivors(pieces - todo, collecting)
        invariant count == old(count) - Stale(pieces - todo, collecting)
        decreases todo
      {
        var feederID :| feederID in todo;
        StaleStep(pieces, todo, feederID, collecting);
        if feederID in collecting {
          var kept := PurgeFeeder(pieces[feederID], collecting[feederID]);
          if kept != map[] {
            SurvivorsAdd(pieces, todo, feederID, collecting);
            newCachedPieces := newCachedPieces[feederID := kept];
          } else {
            SurvivorsSkip(pieces, todo, feederID, collecting);
          }
        } else {
          SurvivorsSkip(pieces, todo, feederID, collecting);
        }
        todo := todo - {feederID};
      }
      assert pieces - {} == pieces;
      if |newCachedPieces| > 0 {
        cachedPieces := newCachedPieces;
      }
    }
  }

  /** Filling for other feeders does not touch the slots of `f`. */
  lemma {:induction false} FillOthers(c: Cache, fs: seq<FeederId>, next: map<FeederId, PieceIndex>, f: FeederId)
    requires f !in fs
    ensures forall i :: SlotAt(FillCache(c, fs, next), f, i) == SlotAt(c, f, i)
  {
    if fs != [] {
      FillOthers(c, fs[..|fs| - 1], next, f);
      assert fs[|fs| - 1] != f;
    }
  }

  lemma MissingCollects(txs: seq<Tx>, collecting: set<FeederId>)
    ensures Missing(txs, collecting) <= collecting
  {
  }

  lemma KeptNone(collecting: set<FeederId>)
    ensures Decoded([]) == [] && Kept([], collecting) == [] && Missing([], collecting) == collecting
  {
  }

  lemma FillNone(c: Cache, next: map<FeederId, PieceIndex>)
    ensures FillCache(c, [], next) == c && Fills(c, [], next) == []
  {
  }

  lemma FillPush(c: Cache, fs: seq<FeederId>, f: FeederId, next: map<FeederId, PieceIndex>)
    requires f !in fs
    ensures FillCache(c, fs + [f], next)
         == if f in next then PickCache(FillCache(c, fs, next), f, next[f]) else FillCache(c, fs, next)
    ensures Fills(c, fs + [f], next)
         == if f in next then Fills(c, fs, next) + HeadAt(FillCache(c, fs, next), f, next[f]) else Fills(c, fs, next)
  {
    assert (fs + [f])[..|fs|] == fs;
    FillOthers(c, fs, next, f);
  }

  // One round of a loop over the keys of a map, `todo` being the keys not yet visited.

  lemma CurrentSlotsStep(m: Slots, todo: set<PieceIndex>, i: PieceIndex, b: BlockNumber)
    requires i in todo && todo <= m.Keys
    ensures CurrentSlots(m - (todo - {i}), b)
         == if Current(m[i], b) == [] then CurrentSlots(m - todo, b)
            else CurrentSlots(m - todo, b)[i := Current(m[i], b)]
  {
  }

  lemma StaleInStep(m: Slots, todo: set<PieceIndex>, i: PieceIndex, b: BlockNumber)
    requires i in todo && todo <= m.Keys
    ensures StaleIn(m - (todo - {i}), b) == StaleIn(m - todo, b) + StaleOf(m[i], b)
  {
    SumPut(StaleSizes(m - todo, b), i, StaleOf(m[i], b));
    assert StaleSizes(m - (todo - {i}), b) == StaleSizes(m - todo, b)[i := StaleOf(m[i], b)];
  }

  lemma NothingSurvivesYet(c: Cache, collecting: map<FeederId, BlockNumber>)
    ensures Survivors(c - c.Keys, collecting) == map[] && Stale(c - c.Keys, collecting) == 0
  {
    assert StaleTotals(c - c.Keys, collecting) == map[];
  }

  lemma SurvivorsAdd(c: Cache, todo: set<FeederId>, f: FeederId, collecting: map<FeederId, BlockNumber>)
    requires f in todo && todo <= c.Keys
    requires f in collecting && CurrentSlots(c[f], collecting[f]) != map[]
    ensures Survivors(c - (todo - {f}), collecting)
         == Survivors(c - todo, collecting)[f := CurrentSlots(c[f], collecting[f])]
  {
    hide CurrentSlots;
  }

  lemma SurvivorsSkip(c: Cache, todo: set<FeederId>, f: FeederId, collecting: map<FeederId, BlockNumber>)
    requires f in todo && todo <= c.Keys
    requires f in collecting ==> CurrentSlots(c[f], collecting[f]) == map[]
    ensures Survivors(c - (todo - {f}), collecting) == Survivors(c - todo, collecting)
  {
    hide CurrentSlots;
  }

  lemma StaleStep(c: Cache, todo: set<FeederId>, f: FeederId, collecting: map<FeederId, BlockNumber>)
    requires f in todo && todo <= c.Keys
    ensures Stale(c - (todo - {f}), collecting)
         == Stale(c - todo, collecting) + if f in collecting then StaleIn(c[f], collecting[f]) else 0
  {
    hide StaleIn, Sum;
    var w := StaleTotals(c - todo, collecting);
    if f in collecting {
      SumPut(w, f, StaleIn(c[f], collecting[f]));
      assert StaleTotals(c - (todo - {f}), collecting) == w[f := StaleIn(c[f], collecting[f])];
    } else {
      assert StaleTotals(c - (todo - {f}), collecting) == w;
    }
  }

  lemma AboveStep(m: Slots, todo: set<PieceIndex>, i: PieceIndex, cut: PieceIndex)
    requires i in todo && todo <= m.Keys
    ensures Above(m - (todo - {i}), cut) == if i > cut then Above(m - todo, cut)[i := m[i]] else Above(m - todo, cut)
  {
  }

  lemma UpToStep(m: Slots, todo: set<PieceIndex>, i: PieceIndex, cut: PieceIndex)
    requires i in todo && todo <= m.Keys
    ensures Size(UpTo(m - (todo - {i}), cut)) == Size(UpTo(m - todo, cut)) + if i > cut then 0 else |m[i]|
  {
    var before, after := UpTo(m - todo, cut), UpTo(m - (todo - {i}), cut);
    if i > cut {
      assert after == before;
    } else {
      assert after == before[i := m[i]];
      assert before - {i} == before;
      SizePut(before, i, m[i]);
    }
  }

  /** The comparison of lengths at the end of `Remove` only saves a write. */
  lemma CutCacheByLength(c: Cache, f: FeederId, cut: PieceIndex)
    requires f in c
    ensures CutCache(c, f, cut)
         == if |Above(c[f], cut)| == 0 then c - {f}
            else if |Above(c[f], cut)| < |c[f]| then c[f := Above(c[f], cut)]
            else c
  {
    var m := Above(c[f], cut);
    SubsetSize(m.Keys, c[f].Keys);
    if |m| >= |c[f]| {
      assert m == c[f];
      assert c[f := m] == c;
    }
  }

  lemma RestrictPrefix(fs: seq<FeederId>, k: nat, s: set<FeederId>)
    requires Sorted(Ascending, fs) && k < |fs|
    ensures forall f :: f in Restrict(fs[..k], s) ==> f in s && f != fs[k]
  {
    RestrictSorted(fs[..k], s);
  }

  lemma SubsetSize<T>(a: set<T>, b: set<T>)
    requires a <= b
    ensures |a| <= |b|
    ensures |a| == |b| ==> a == b
  {
    assert b == a + (b - a);
    assert |b| == |a| + |b - a|;
  }
}
