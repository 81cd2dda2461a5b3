/** What `Select` of app/mempool.go proposes, and how the pieces of a slot take turns. */
module PoolSelect {
  import opened Common
  import opened OracleTx
  import opened Order
  import opened Pool
  import opened PoolInvariant
  import opened PoolRuns

  // --------------------------------------------------------- the proposed block

  /** Of a request, every transaction that is not raw data is kept, and of the raw data for each
      collecting feeder the first, in the order of the request. */
  lemma {:induction false} KeptIsFirstPerFeeder(txs: seq<Tx>, collecting: set<FeederId>, f: FeederId)
    ensures NonRaws(Kept(txs, collecting)) == NonRaws(txs)
    ensures RawsFor(Kept(txs, collecting), f)
         == if f in collecting && RawsFor(txs, f) != [] then [RawsFor(txs, f)[0]] else []
  {
    if txs != [] {
      var init, tx := txs[..|txs| - 1], txs[|txs| - 1];
      assert txs == init + [tx];
      KeptIsFirstPerFeeder(init, collecting, f);
      KeptPush(init, tx, collecting);
      RawsForPush(init, tx, f);
      NonRawsPush(init, tx);
      RawsForPush(Kept(init, collecting), tx, f);
      NonRawsPush(Kept(init, collecting), tx);
    }
  }

  /** If no feeder collects, only the other transactions are kept. */
  lemma {:induction false} KeptForNone(txs: seq<Tx>)
    ensures Kept(txs, {}) == NonRaws(txs)
  {
    if txs != [] {
      KeptForNone(txs[..|txs| - 1]);
    }
  }

  lemma {:induction false} KeptInOrder(txs: seq<Tx>, collecting: set<FeederId>)
    ensures Subsequence(Kept(txs, collecting), txs)
  {
    if txs != [] {
      var init, tx := txs[..|txs| - 1], txs[|txs| - 1];
      assert txs == init + [tx];
      KeptInOrder(init, collecting);
      KeptPush(init, tx, collecting);
      var k := Kept(init, collecting);
      if Kept(txs, collecting) == k {
        SubsequencePush(k, init, tx);
      } else {
        SubsequenceBoth(k, init, tx);
      }
    }
  }

  /** The transaction a slot hands out is raw data for the slot's feeder. */
  lemma HeadIsRaw(c: Cache, f: FeederId, i: PieceIndex)
    requires Valid(c)
    ensures forall k :: 0 <= k < |HeadAt(c, f, i)| ==> RawFor(HeadAt(c, f, i)[k], f)
  {
    if SlotAt(c, f, i) != [] {
      assert ValidSlots(c[f], f);
      assert ValidSlot(c[f][i], f, i);
      assert WellFiled(c[f][i][0], f, i);
    }
  }

  /** The fill-ins: for each missing feeder with a cached piece at its next index that piece's
      transaction, and nothing else, in ascending order of feeders. */
  lemma {:induction false} FillsPerFeeder(c: Cache, fs: seq<FeederId>, next: map<FeederId, PieceIndex>, f: FeederId)
    requires Valid(c) && Sorted(Ascending, fs)
    ensures NonRaws(Fills(c, fs, next)) == []
    ensures RawsFor(Fills(c, fs, next), f) == if f in fs && f in next then HeadAt(c, f, next[f]) else []
  {
    if fs != [] {
      var init, last := fs[..|fs| - 1], fs[|fs| - 1];
      hide SlotAt, Valid, RawsFor, NonRaws, RawFor, Sorted;
      SortedInit(fs);
      FillsPerFeeder(c, init, next, f);
      if last in next && SlotAt(c, last, next[last]) != [] {
        HeadIsRaw(c, last, next[last]);
        var tx := HeadAt(c, last, next[last])[0];
        assert Fills(c, fs, next) == Fills(c, init, next) + [tx];
        RawsForPush(Fills(c, init, next), tx, f);
        NonRawsPush(Fills(c, init, next), tx);
      } else {
        assert Fills(c, fs, next) == Fills(c, init, next);
      }
    }
  }

  /** A transaction of one oracle message. */
  predicate HasOneReport(tx: Tx) {
    |tx.msgs| == 1 && tx.msgs[0].CreatePrice?
  }

  ghost predicate FeedersAscend(txs: seq<Tx>) {
    && (forall k :: 0 <= k < |txs| ==> HasOneReport(txs[k]))
    && forall k, l :: 0 <= k < l < |txs| ==> txs[k].msgs[0].feederID < txs[l].msgs[0].feederID
  }

  /** The transaction of a piece cached at the index its feeder expects next. */
  ghost predicate Expected(c: Cache, next: map<FeederId, PieceIndex>, tx: Tx) {
    && HasOneReport(tx) && tx.msgs[0].phase.PhaseTwo? && tx.msgs[0].feederID in next
    && exists x :: x in SlotAt(c, tx.msgs[0].feederID, next[tx.msgs[0].feederID]) && x.tx == tx
  }

  lemma HeadIsExpected(c: Cache, f: FeederId, next: map<FeederId, PieceIndex>)
    requires Valid(c) && f in next
    ensures forall k :: 0 <= k < |HeadAt(c, f, next[f])| ==>
              Expected(c, next, HeadAt(c, f, next[f])[k]) && HeadAt(c, f, next[f])[k].msgs[0].feederID == f
  {
    HeadIsRaw(c, f, next[f]);
    if SlotAt(c, f, next[f]) != [] {
      assert SlotAt(c, f, next[f])[0] in SlotAt(c, f, next[f]);
    }
  }

  lemma {:induction false} FillsAscend(c: Cache, fs: seq<FeederId>, next: map<FeederId, PieceIndex>)
    requires Valid(c) && Sorted(Ascending, fs)
    ensures FeedersAscend(Fills(c, fs, next))
    ensures forall k :: 0 <= k < |Fills(c, fs, next)| ==>
              Expected(c, next, Fills(c, fs, next)[k]) && Fills(c, fs, next)[k].msgs[0].feederID in fs
  {
    hide Valid, SlotAt, HeadAt;
    if fs != [] {
      var init, last := fs[..|fs| - 1], fs[|fs| - 1];
      SortedInit(fs);
      FillsAscend(c, init, next);
      if last in next {
        HeadIsExpected(c, last, next);
        HeadIsOne(c, last, next[last]);
      }
    }
  }

  lemma HeadIsOne(c: Cache, f: FeederId, i: PieceIndex)
    ensures |HeadAt(c, f, i)| <= 1
  {
  }

  lemma ProposalPerFeeder(c: Cache, txs: seq<Tx>, collecting: set<FeederId>, next: map<FeederId, PieceIndex>, f: FeederId)
    requires Valid(c)
    ensures var out := Kept(txs, collecting) + Fills(c, Listing(Ascending, Missing(txs, collecting)), next);
            && NonRaws(out) == NonRaws(txs)
            && RawsFor(out, f) ==
               if f !in collecting then []
               else if RawsFor(txs, f) != [] then [RawsFor(txs, f)[0]]
               else if f in next then HeadAt(c, f, next[f])
               else []
  {
    var missing := Listing(Ascending, Missing(txs, collecting));
    KeptIsFirstPerFeeder(txs, collecting, f);
    FillsPerFeeder(c, missing, next, f);
    RawsForConcat(Kept(txs, collecting), Fills(c, missing, next), f);
    NonRawsConcat(Kept(txs, collecting), Fills(c, missing, next));
  }

  /** The block `Select` proposes: every other transaction of the request; for each collecting
      feeder the first raw-data transaction of the request or, if there is none, the transaction
      of the piece that heads the slot its feeder expects next; no raw data for any other feeder. */
  lemma SelectPerFeeder(p: Pool, e: Event, f: FeederId)
    requires Valid(p.cache) && e.Select?
    ensures var out := SelectStep(p, e.collecting, e.request, e.next).1;
            var txs := Decoded(e.request);
            && NonRaws(out) == NonRaws(txs)
            && RawsFor(out, f) ==
               if f !in e.collecting then []
               else if RawsFor(txs, f) != [] then [RawsFor(txs, f)[0]]
               else if f in e.next then HeadAt(PurgeStep(p, e.collecting).cache, f, e.next[f])
               else []
  {
    if e.collecting == map[] {
      KeptForNone(Decoded(e.request));
      KeptIsFirstPerFeeder(Decoded(e.request), {}, f);
    } else {
      SurvivorsValid(p.cache, e.collecting);
      ProposalPerFeeder(PurgeStep(p, e.collecting).cache, Decoded(e.request), e.collecting.Keys, e.next, f);
    }
  }

  /** A fill-in reports for a collecting feeder the request has nothing for, and is the transaction
      of a piece that was cached for that feeder at the index it expects next. */
  ghost predicate FillIn(p: Pool, e: Event, tx: Tx)
    requires e.Select?
  {
    && Expected(p.cache, e.next, tx)
    && tx.msgs[0].feederID in e.collecting && RawsFor(Decoded(e.request), tx.msgs[0].feederID) == []
  }

  ghost predicate AllFillIns(p: Pool, e: Event, txs: seq<Tx>)
    requires e.Select?
  {
    FeedersAscend(txs) && forall k :: 0 <= k < |txs| ==> FillIn(p, e, txs[k])
  }

  /** The order of the proposed block: first a part of the request in its order, then fill-ins in
      ascending order of their feeders. */
  lemma SelectOrder(p: Pool, e: Event)
    requires Valid(p.cache) && e.Select?
    ensures exists kept, fills ::
              && SelectStep(p, e.collecting, e.request, e.next).1 == kept + fills
              && Subsequence(kept, Decoded(e.request)) && AllFillIns(p, e, fills)
  {
    hide AllFillIns, Valid, Kept, NonRaws, Fills, FillCache, PurgeStep, Subsequence, Decoded, RawsFor;
    var txs, out := Decoded(e.request), SelectStep(p, e.collecting, e.request, e.next).1;
    KeptInOrder(txs, e.collecting.Keys);
    if e.collecting == map[] {
      KeptForNone(txs);
      assert e.collecting.Keys == {};
      NoFillIns(p, e);
      assert out == Kept(txs, e.collecting.Keys) + [];
    } else {
      FillsAreFillIns(p, e);
    }
  }

  lemma NoFillIns(p: Pool, e: Event)
    requires e.Select?
    ensures AllFillIns(p, e, [])
  {
  }

  lemma FillsAreFillIns(p: Pool, e: Event)
    requires Valid(p.cache) && e.Select?
    ensures var missing := Listing(Ascending, Missing(Decoded(e.request), e.collecting.Keys));
            AllFillIns(p, e, Fills(PurgeStep(p, e.collecting).cache, missing, e.next))
  {
    hide Fills, Decoded, RawsFor, Valid, PurgeStep, Expected, FeedersAscend;
    var c := PurgeStep(p, e.collecting).cache;
    var missing := Listing(Ascending, Missing(Decoded(e.request), e.collecting.Keys));
    var fills := Fills(c, missing, e.next);
    PurgeIsValid(p, e.collecting);
    FillsAscend(c, missing, e.next);
    forall k | 0 <= k < |fills|
      ensures FillIn(p, e, fills[k])
    {
      ExpectedBeforePurge(p, e.collecting, e.next, fills[k]);
      ExpectedReports(c, e.next, fills[k]);
    }
  }

  lemma ExpectedReports(c: Cache, next: map<FeederId, PieceIndex>, tx: Tx)
    requires Expected(c, next, tx)
    ensures HasOneReport(tx) && tx.msgs[0].feederID in next
  {
  }

  lemma PurgeIsValid(p: Pool, collecting: map<FeederId, BlockNumber>)
    requires Valid(p.cache)
    ensures Valid(PurgeStep(p, collecting).cache)
  {
    SurvivorsValid(p.cache, collecting);
  }

  /** A purge adds no piece. */
  lemma PurgeOnlyDrops(p: Pool, collecting: map<FeederId, BlockNumber>, f: FeederId, i: PieceIndex, x: Piece)
    requires x in SlotAt(PurgeStep(p, collecting).cache, f, i)
    ensures x in SlotAt(p.cache, f, i)
  {
    hide Survivors;
    if Survivors(p.cache, collecting) != map[] {
      PurgeSlots(p, collecting, f, i);
      if f in collecting {
        CurrentIsSubset(SlotAt(p.cache, f, i), collecting[f]);
      }
    }
  }

  lemma ExpectedBeforePurge(p: Pool, collecting: map<FeederId, BlockNumber>, next: map<FeederId, PieceIndex>, tx: Tx)
    requires Expected(PurgeStep(p, collecting).cache, next, tx)
    ensures Expected(p.cache, next, tx)
  {
    hide PurgeStep, SlotAt;
    var f := tx.msgs[0].feederID;
    var x :| x in SlotAt(PurgeStep(p, collecting).cache, f, next[f]) && x.tx == tx;
    PurgeOnlyDrops(p, collecting, f, next[f], x);
  }

  /** A pick of slot `(f, i)` happens in event `e`. */
  predicate Picks(e: Event, f: FeederId, i: PieceIndex) {
    && e.Select? && f in e.collecting && f in e.next && e.next[f] == i
    && RawsFor(Decoded(e.request), f) == []
  }

  lemma {:induction false} FillSlot(c: Cache, fs: seq<FeederId>, next: map<FeederId, PieceIndex>, f: FeederId, i: PieceIndex)
    requires Sorted(Ascending, fs)
    ensures SlotAt(FillCache(c, fs, next), f, i)
         == if f in fs && f in next && next[f] == i then Rotate(SlotAt(c, f, i)) else SlotAt(c, f, i)
  {
    if fs != [] {
      var init, last := fs[..|fs| - 1], fs[|fs| - 1];
      SortedInit(fs);
      FillSlot(c, init, next, f, i);
    }
  }

  /** `Select` turns exactly the slots it picks from, on top of the purge; if no feeder collects,
      it empties every slot. */
  lemma SelectSlot(p: Pool, e: Event, f: FeederId, i: PieceIndex)
    requires e.Select?
    ensures var c := PurgeStep(p, e.collecting).cache;
            SlotAt(Step(p, e).cache, f, i) ==
            if e.collecting == map[] then []
            else if Picks(e, f, i) then Rotate(SlotAt(c, f, i))
            else SlotAt(c, f, i)
  {
    var missing := Listing(Ascending, Missing(Decoded(e.request), e.collecting.Keys));
    FillSlot(PurgeStep(p, e.collecting).cache, missing, e.next, f, i);
  }

  lemma PurgeSlots(p: Pool, collecting: map<FeederId, BlockNumber>, f: FeederId, i: PieceIndex)
    requires Survivors(p.cache, collecting) != map[]
    ensures SlotAt(PurgeStep(p, collecting).cache, f, i)
         == if f in collecting then Current(SlotAt(p.cache, f, i), collecting[f]) else []
  {
    if f in p.cache && f in collecting {
      var m := CurrentSlots(p.cache[f], collecting[f]);
      assert m == map[] ==> i !in m;
    }
  }

  // ---------------------------------------------------------------- fair turns

  /** The raw-data transactions `Select` proposes for feeder `f`. */
  ghost function Proposed(p: Pool, e: Event, f: FeederId): (r: seq<Tx>)
    requires e.Select?
  {
    RawsFor(SelectStep(p, e.collecting, e.request, e.next).1, f)
  }

  /** Piece `x` is at position `q` of its slot. */
  predicate At(p: Pool, f: FeederId, x: Piece, q: nat) {
    q < |SlotAt(p.cache, f, x.index)| && SlotAt(p.cache, f, x.index)[q] == x
  }

  predicate Cached(p: Pool, f: FeederId, x: Piece) {
    x in SlotAt(p.cache, f, x.index)
  }

  /** The event does not evict the piece: a removal concerns another feeder or a smaller index,
      and at a selection some feeder collects, and this one does for the piece's block unless
      no cached piece survives the purge. */
  ghost predicate KeepsPiece(p: Pool, e: Event, f: FeederId, x: Piece) {
    match e
    case Insert(_, _) => true
    case Remove(tx, parsed) => RawFor(tx, f) && parsed.Some? ==> parsed.value.index < x.index
    case Select(collecting, _, _) =>
      && collecting != map[]
      && (SomePieceSurvives(p.cache, collecting) ==> f in collecting && collecting[f] == x.baseBlock)
  }

  /** After a selection the piece is cached just if the purge leaves it. */
  lemma CachedAfterSelect(p: Pool, e: Event, f: FeederId, x: Piece)
    requires e.Select? && Cached(p, f, x)
    ensures Cached(Step(p, e), f, x) <==> KeepsPiece(p, e, f, x)
  {
    hide FillCache, Missing, Survivors, SomePieceSurvives, PickCache;
    if e.collecting != map[] {
      hide Step, SelectStep, Picks, SlotAt, Rotate;
      SelectSlot(p, e, f, x.index);
      SurvivorsNonEmpty(p.cache, e.collecting);
      RotateMembers(SlotAt(PurgeStep(p, e.collecting).cache, f, x.index), x);
      if SomePieceSurvives(p.cache, e.collecting) {
        PurgeSlots(p, e.collecting, f, x.index);
        if f in e.collecting {
          InCurrent(SlotAt(p.cache, f, x.index), e.collecting[f], x);
        }
      }
    }
  }

  lemma RotateMembers(s: seq<Piece>, x: Piece)
    ensures x in Rotate(s) <==> x in s
  {
    if |s| > 1 {
      assert s == [s[0]] + s[1..];
    }
  }

  lemma InCurrent(s: seq<Piece>, b: BlockNumber, x: Piece)
    requires x in s
    ensures x in Current(s, b) <==> x.baseBlock == b
  {
    CurrentIsSubset(s, b);
    var q :| 0 <= q < |s| && s[q] == x;
    if x.baseBlock == b {
      CurrentPosition(s, b, q);
    }
  }

  /** Of a feeder that collects, a purge in which something survives keeps exactly the pieces of its
      block, whatever their index. */
  lemma PurgeGoesByBlock(p: Pool, collecting: map<FeederId, BlockNumber>, f: FeederId, x: Piece)
    requires Cached(p, f, x) && f in collecting && SomePieceSurvives(p.cache, collecting)
    ensures Cached(PurgeStep(p, collecting), f, x) <==> x.baseBlock == collecting[f]
  {
    SurvivorsNonEmpty(p.cache, collecting);
    PurgeSlots(p, collecting, f, x.index);
    InCurrent(SlotAt(p.cache, f, x.index), collecting[f], x);
  }

  /** Exactly these events leave a cached piece in its slot. */
  lemma KeptExactly(p: Pool, e: Event, f: FeederId, x: Piece)
    requires Valid(p.cache) && Cached(p, f, x)
    ensures Cached(Step(p, e), f, x) <==> KeepsPiece(p, e, f, x)
  {
    match e
    case Insert(tx, parsed) => InsertEffect(p, tx, parsed, f, x.index);
    case Remove(tx, parsed) =>
      if IsRawData(tx) && parsed.Some? {
        CutSlot(p, FeederOf(tx), parsed.value.index, f, x.index);
      }
    case Select(_, _, _) => CachedAfterSelect(p, e, f, x);
  }

  /** What is cached after an event was cached before, or is the piece it inserts. */
  lemma OnlyInsertAdds(p: Pool, e: Event, f: FeederId, i: PieceIndex, x: Piece)
    requires Valid(p.cache) && x in SlotAt(Step(p, e).cache, f, i)
    ensures x in SlotAt(p.cache, f, i) || e == Insert(x.tx, Some(Body(i, x.rawData, x.proof)))
  {
    hide InsertStep, RemoveStep, SelectStep, PurgeStep, SlotAt;
    match e
    case Insert(tx, parsed) => InsertEffect(p, tx, parsed, f, i);
    case Remove(tx, parsed) => RemoveEffect(p, tx, parsed, f, i);
    case Select(collecting, _, _) =>
      SelectSlot(p, e, f, i);
      RotateMembers(SlotAt(PurgeStep(p, collecting).cache, f, i), x);
      PurgeOnlyDrops(p, collecting, f, i, x);
  }

  /** In every state reachable from the empty mempool each cached piece stands under the index it
      was inserted with and the feeder its one message names, with the block that message names. */
  lemma {:induction false} CachedWasInserted(es: seq<Event>, f: FeederId, i: PieceIndex, x: Piece)
    requires x in SlotAt(Run(Empty, es).cache, f, i)
    ensures exists k :: 0 <= k < |es| && es[k] == Insert(x.tx, Some(Body(i, x.rawData, x.proof)))
    ensures x.index == i && |x.tx.msgs| == 1 && x.tx.msgs[0].CreatePrice? && x.tx.msgs[0].phase.PhaseTwo?
    ensures x.tx.msgs[0].feederID == f && x.tx.msgs[0].basedBlock == x.baseBlock
  {
    var c := Run(Empty, es).cache;
    ReachableIsValid(es);
    assert ValidSlots(c[f], f);
    assert ValidSlot(c[f][i], f, i);
    hide Step, SlotAt, Valid, WellFiled;
    var init, last := es[..|es| - 1], es[|es| - 1];
    ReachableIsValid(init);
    OnlyInsertAdds(Run(Empty, init), last, f, i, x);
    if last == Insert(x.tx, Some(Body(i, x.rawData, x.proof))) {
      assert es[|es| - 1] == last;
    } else {
      CachedWasInserted(init, f, i, x);
    }
  }

  /** The piece is cached from the start to the end of the run. */
  ghost predicate StaysCached(p: Pool, es: seq<Event>, f: FeederId, x: Piece) {
    forall k :: 0 <= k <= |es| ==> Cached(Run(p, es[..k]), f, x)
  }

  function PickCount(es: seq<Event>, f: FeederId, i: PieceIndex): (n: nat) {
    if es == [] then 0
    else PickCount(es[..|es| - 1], f, i) + if Picks(es[|es| - 1], f, i) then 1 else 0
  }

  /** Dropping stale pieces never moves a current piece back. */
  lemma {:induction false} CurrentPosition(s: seq<Piece>, b: BlockNumber, q: nat)
    requires q < |s| && s[q].baseBlock == b
    ensures exists q' :: 0 <= q' <= q && q' < |Current(s, b)| && Current(s, b)[q'] == s[q]
    decreases |s|
  {
    var init := s[..|s| - 1];
    if q == |init| {
      assert Current(s, b)[|Current(init, b)|] == s[q];
    } else {
      CurrentPosition(init, b, q);
      var q' :| 0 <= q' <= q && q' < |Current(init, b)| && Current(init, b)[q'] == init[q];
      assert Current(s, b)[q'] == s[q];
    }
  }

  /** A purge that leaves the piece moves it no further back. */
  lemma PurgePosition(p: Pool, e: Event, f: FeederId, x: Piece, q: nat) returns (q': nat)
    requires e.Select? && At(p, f, x, q) && KeepsPiece(p, e, f, x)
    ensures q' <= q && At(PurgeStep(p, e.collecting), f, x, q')
  {
    hide Survivors, SomePieceSurvives;
    SurvivorsNonEmpty(p.cache, e.collecting);
    if SomePieceSurvives(p.cache, e.collecting) {
      PurgeSlots(p, e.collecting, f, x.index);
      CurrentPosition(SlotAt(p.cache, f, x.index), x.baseBlock, q);
      q' :| 0 <= q' <= q && q' < |Current(SlotAt(p.cache, f, x.index), x.baseBlock)|
            && Current(SlotAt(p.cache, f, x.index), x.baseBlock)[q'] == x;
    } else {
      q' := q;
    }
  }

  /** A pick hands the piece out if it is first, and else moves it one forward. */
  lemma SelectPosition(p: Pool, e: Event, f: FeederId, x: Piece, q: nat)
    requires Valid(p.cache) && e.Select? && At(p, f, x, q) && KeepsPiece(p, e, f, x)
    ensures if !Picks(e, f, x.index) then exists q': nat :: q' <= q && At(Step(p, e), f, x, q')
            else Proposed(p, e, f) == [x.tx] || exists q': nat :: q' + 1 <= q && At(Step(p, e), f, x, q')
  {
    hide Step, SelectStep, PurgeStep, SomePieceSurvives;
    var q1 := PurgePosition(p, e, f, x, q);
    SelectSlot(p, e, f, x.index);
    SelectPerFeeder(p, e, f);
    if !Picks(e, f, x.index) {
      assert At(Step(p, e), f, x, q1);
    } else if q1 > 0 {
      assert At(Step(p, e), f, x, q1 - 1);
    }
  }

  lemma OtherPosition(p: Pool, e: Event, f: FeederId, x: Piece, q: nat)
    requires !e.Select? && At(p, f, x, q) && KeepsPiece(p, e, f, x)
    ensures At(Step(p, e), f, x, q) && !Picks(e, f, x.index)
  {
    if e.Remove? && IsRawData(e.tx) && e.parsed.Some? {
      CutSlot(p, FeederOf(e.tx), e.parsed.value.index, f, x.index);
    }
  }

  /** Some event of the run picks the slot and hands the piece out, after at most `q` other picks. */
  ghost predicate HandedOut(p: Pool, es: seq<Event>, f: FeederId, x: Piece, q: nat) {
    exists k :: 0 <= k < |es| && HandsOut(p, es, k, f, x, q)
  }

  ghost predicate HandsOut(p: Pool, es: seq<Event>, k: nat, f: FeederId, x: Piece, q: nat)
    requires k < |es|
  {
    && Picks(es[k], f, x.index) && PickCount(es[..k], f, x.index) <= q
    && Proposed(Run(p, es[..k]), es[k], f) == [x.tx]
  }

  lemma {:induction false} HandedOutOrCloser(p: Pool, es: seq<Event>, f: FeederId, x: Piece, q: nat)
    requires Valid(p.cache) && At(p, f, x, q)
    requires StaysCached(p, es, f, x)
    ensures Valid(Run(p, es).cache)
    ensures HandedOut(p, es, f, x, q)
            || exists q': nat :: q' + PickCount(es, f, x.index) <= q && At(Run(p, es), f, x, q')
  {
    hide Step, SelectStep, PurgeStep, Picks, Proposed, KeepsPiece, At, Cached;
    if es == [] {
      assert q + PickCount(es, f, x.index) <= q && At(Run(p, es), f, x, q);
    } else {
      var init, last := es[..|es| - 1], es[|es| - 1];
      assert forall k :: 0 <= k <= |init| ==> init[..k] == es[..k];
      HandedOutOrCloser(p, init, f, x, q);
      StepKeepsValid(Run(p, init), last);
      assert es[..|es|] == es;
      KeptExactly(Run(p, init), last, f, x);
      if HandedOut(p, init, f, x, q) {
        var k :| 0 <= k < |init| && HandsOut(p, init, k, f, x, q);
        assert init[..k] == es[..k];
        assert HandsOut(p, es, k, f, x, q);
      } else {
        var q1: nat :| q1 + PickCount(init, f, x.index) <= q && At(Run(p, init), f, x, q1);
        if !last.Select? {
          OtherPosition(Run(p, init), last, f, x, q1);
          assert q1 + PickCount(es, f, x.index) <= q && At(Run(p, es), f, x, q1);
        } else {
          SelectPosition(Run(p, init), last, f, x, q1);
          if Picks(last, f, x.index) && Proposed(Run(p, init), last, f) == [x.tx] {
            assert HandsOut(p, es, |es| - 1, f, x, q);
          } else {
            var q2: nat :| q2 + (if Picks(last, f, x.index) then 1 else 0) <= q1 && At(Step(Run(p, init), last), f, x, q2);
            assert q2 + PickCount(es, f, x.index) <= q && At(Run(p, es), f, x, q2);
          }
        }
      }
    }
  }

  /** No starvation: a piece at position `q` of its slot is handed out within `q + 1` picks of that
      slot, whatever insertions, removals and selections come between, as long as it stays cached. */
  lemma NoStarvation(p: Pool, es: seq<Event>, f: FeederId, x: Piece, q: nat)
    requires Valid(p.cache) && At(p, f, x, q)
    requires StaysCached(p, es, f, x)
    requires PickCount(es, f, x.index) > q
    ensures HandedOut(p, es, f, x, q)
  {
    hide *;
    HandedOutOrCloser(p, es, f, x, q);
  }

  /** The events of `es` all pick the slot, and its pieces stay cached. */
  ghost predicate OnlyPicks(p: Pool, es: seq<Event>, f: FeederId, i: PieceIndex) {
    && (forall k :: 0 <= k < |es| ==> Picks(es[k], f, i))
    && forall x :: x in SlotAt(p.cache, f, i) ==> StaysCached(p, es, f, x)
  }

  lemma {:induction false} CurrentOfAll(s: seq<Piece>, b: BlockNumber)
    requires forall k :: 0 <= k < |s| ==> s[k].baseBlock == b
    ensures Current(s, b) == s
  {
    if s != [] {
      CurrentOfAll(s[..|s| - 1], b);
    }
  }

  /** A purge that leaves every piece of a slot leaves the slot as it is. */
  lemma PurgeLeavesSlot(p: Pool, e: Event, f: FeederId, i: PieceIndex)
    requires e.Select? && SlotAt(p.cache, f, i) != []
    requires forall x :: x in SlotAt(p.cache, f, i) ==> KeepsPiece(p, e, f, x)
    ensures e.collecting != map[] && SlotAt(PurgeStep(p, e.collecting).cache, f, i) == SlotAt(p.cache, f, i)
  {
    hide Survivors, SomePieceSurvives;
    var s := SlotAt(p.cache, f, i);
    assert KeepsPiece(p, e, f, s[0]);
    SurvivorsNonEmpty(p.cache, e.collecting);
    if SomePieceSurvives(p.cache, e.collecting) {
      PurgeSlots(p, e.collecting, f, i);
      assert forall k :: 0 <= k < |s| ==> s[k] in s;
      CurrentOfAll(s, e.collecting[f]);
    }
  }

  lemma PickTurnsSlot(p: Pool, e: Event, f: FeederId, i: PieceIndex)
    requires Valid(p.cache) && SlotAt(p.cache, f, i) != [] && Picks(e, f, i)
    requires forall x :: x in SlotAt(p.cache, f, i) ==> KeepsPiece(p, e, f, x)
    ensures SlotAt(Step(p, e).cache, f, i) == Rotate(SlotAt(p.cache, f, i))
    ensures Proposed(p, e, f) == [SlotAt(p.cache, f, i)[0].tx]
  {
    hide KeepsPiece, SlotAt, PurgeStep;
    PurgeLeavesSlot(p, e, f, i);
    SelectSlot(p, e, f, i);
    SelectPerFeeder(p, e, f);
  }

  /** The `k`-th event of the run proposes exactly `tx` as raw data for the feeder. */
  ghost predicate ProposesAt(p: Pool, es: seq<Event>, k: nat, f: FeederId, tx: Tx) {
    k < |es| && es[k].Select? && Proposed(Run(p, es[..k]), es[k], f) == [tx]
  }

  lemma ProposesAtLonger(p: Pool, es: seq<Event>, k: nat, f: FeederId, tx: Tx)
    requires es != [] && ProposesAt(p, es[..|es| - 1], k, f, tx)
    ensures ProposesAt(p, es, k, f, tx)
  {
    hide Run, Proposed;
    assert es[..|es| - 1][..k] == es[..k];
  }

  /** One more pick of a slot that has been turned `n` times. */
  lemma RoundRobinStep(p: Pool, es: seq<Event>, f: FeederId, i: PieceIndex, s: seq<Piece>)
    requires es != [] && |es| <= |s|
    requires var n := |es| - 1;
             var q := Run(p, es[..n]);
             && Valid(q.cache) && SlotAt(q.cache, f, i) == s[n..] + s[..n] && Picks(es[n], f, i)
             && forall x :: x in s ==> KeepsPiece(q, es[n], f, x)
    ensures SlotAt(Run(p, es).cache, f, i) == s[|es|..] + s[..|es|]
    ensures ProposesAt(p, es, |es| - 1, f, s[|es| - 1].tx)
  {
    hide Step, Valid, SlotAt, Proposed, KeepsPiece;
    var n := |es| - 1;
    PickTurnsSlot(Run(p, es[..n]), es[n], f, i);
    RotateTurned(s, n);
  }

  /** Picks without interference go round: the `k`-th hands out the `k`-th piece, and as many
      picks as there are pieces restore the slot. */
  lemma {:induction false} RoundRobin(p: Pool, es: seq<Event>, f: FeederId, i: PieceIndex)
    requires Valid(p.cache) && OnlyPicks(p, es, f, i)
    requires |es| <= |SlotAt(p.cache, f, i)|
    ensures var s := SlotAt(p.cache, f, i);
            && SlotAt(Run(p, es).cache, f, i) == s[|es|..] + s[..|es|]
            && forall k :: 0 <= k < |es| ==> ProposesAt(p, es, k, f, s[k].tx)
    ensures Valid(Run(p, es).cache)
  {
    hide Step, SlotAt, ProposesAt, Valid, Cached, KeepsPiece;
    var s := SlotAt(p.cache, f, i);
    if es == [] {
      assert s[0..] + s[..0] == s;
    } else {
      var n := |es| - 1;
      assert forall k :: 0 <= k <= n ==> es[..n][..k] == es[..k];
      RoundRobin(p, es[..n], f, i);
      assert es[..|es|] == es;
      forall x | x in s
        ensures KeepsPiece(Run(p, es[..n]), es[n], f, x)
      {
        assert StaysCached(p, es, f, x);
        KeptExactly(Run(p, es[..n]), es[n], f, x);
      }
      RoundRobinStep(p, es, f, i, s);
      StepKeepsValid(Run(p, es[..n]), es[n]);
      forall k | 0 <= k < n
        ensures ProposesAt(p, es, k, f, s[k].tx)
      {
        ProposesAtLonger(p, es, k, f, s[k].tx);
      }
    }
  }

  lemma RotateTurned(s: seq<Piece>, n: nat)
    requires n < |s|
    ensures Rotate(s[n..] + s[..n]) == s[n + 1..] + s[..n + 1]
  {
    var t := s[n..] + s[..n];
    assert t[0] == s[n];
    assert t[1..] == s[n + 1..] + s[..n];
    assert s[..n] + [s[n]] == s[..n + 1];
  }
}
