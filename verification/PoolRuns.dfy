/** Properties of whole runs of the oracle mempool (app/mempool.go). */
module PoolRuns {
  import opened Common
  import opened OracleTx
  import opened Order
  import opened Pool
  import opened PoolInvariant

  datatype Event =
    | Insert(tx: Tx, parsed: Option<Body>)
    | Remove(tx: Tx, parsed: Option<Body>)
    | Select(collecting: map<FeederId, BlockNumber>, request: seq<Option<Tx>>, next: map<FeederId, PieceIndex>)

  ghost function Step(p: Pool, e: Event): (q: Pool) {
    match e
    case Insert(tx, parsed) => InsertStep(p, tx, parsed).0
    case Remove(tx, parsed) => RemoveStep(p, tx, parsed).0
    case Select(collecting, request, next) => SelectStep(p, collecting, request, next).0
  }

  ghost function Run(p: Pool, es: seq<Event>): (q: Pool) {
    if es == [] then p else Step(Run(p, es[..|es| - 1]), es[|es| - 1])
  }

  // ------------------------------------------------------------------ invariant

  lemma StepKeepsValid(p: Pool, e: Event)
    requires Valid(p.cache)
    ensures Valid(Step(p, e).cache)
  {
    hide InsertStep, CutCache, Survivors, FillCache;
    match e
    case Insert(tx, parsed) => InsertKeepsValid(p, tx, parsed);
    case Remove(tx, parsed) =>
      if IsRawData(tx) && parsed.Some? {
        CutValid(p.cache, FeederOf(tx), parsed.value.index);
      }
    case Select(collecting, request, next) =>
      if collecting != map[] {
        SurvivorsValid(p.cache, collecting);
        var purged := PurgeStep(p, collecting);
        FillValid(purged.cache, Listing(Ascending, Missing(Decoded(request), collecting.Keys)), next);
      }
  }

  /** In every state reachable from the empty mempool, no inner map or list is empty, each piece
      sits under its own index and the feeder of its raw-data transaction, and no two pieces of
      a slot are equal. */
  lemma {:induction false} ReachableIsValid(es: seq<Event>)
    ensures Valid(Run(Empty, es).cache)
  {
    if es != [] {
      ReachableIsValid(es[..|es| - 1]);
      StepKeepsValid(Run(Empty, es[..|es| - 1]), es[|es| - 1]);
    }
  }

  // -------------------------------------------------------------------- counter

  /** What one step does to the drift: only purges and resets move it. */
  lemma StepDrift(p: Pool, e: Event)
    ensures Drift(Step(p, e)) ==
            if !e.Select? then Drift(p)
            else if e.collecting == map[] then 0
            else if Survivors(p.cache, e.collecting) != map[] then Drift(p) + Dropped(p.cache, e.collecting)
            else Drift(p) - Stale(p.cache, e.collecting)
  {
    hide InsertStep, RemoveStep, PurgeStep, Total, Dropped, Stale, Survivors, FillCache;
    match e
    case Insert(tx, parsed) => InsertKeepsDrift(p, tx, parsed);
    case Remove(tx, parsed) => RemoveKeepsDrift(p, tx, parsed);
    case Select(collecting, request, next) =>
      if collecting == map[] {
        TotalNone();
      } else {
        PurgeDrift(p, collecting);
        FillKeepsTotal(PurgeStep(p, collecting).cache, Listing(Ascending, Missing(Decoded(request), collecting.Keys)), next);
      }
  }

  /** The purge of this event keeps the counter, by the condition of `PurgeKeepsCountExact`. */
  ghost predicate CleanPurge(p: Pool, e: Event) {
    e.Select? && e.collecting != map[] ==>
      if SomePieceSurvives(p.cache, e.collecting) then !SomeFeederDropped(p.cache, e.collecting)
      else !SomePieceStale(p.cache, e.collecting)
  }

  ghost predicate CleanRun(es: seq<Event>) {
    forall k :: 0 <= k < |es| ==> CleanPurge(Run(Empty, es[..k]), es[k])
  }

  ghost predicate ExactThroughout(es: seq<Event>) {
    forall k :: 0 <= k <= |es| ==> Drift(Run(Empty, es[..k])) == 0
  }

  lemma StepKeepsCountExact(p: Pool, e: Event)
    requires Valid(p.cache) && Drift(p) == 0
    ensures Drift(Step(p, e)) == 0 <==> CleanPurge(p, e)
  {
    hide Step, PurgeStep, Drift, Dropped, Stale, Survivors, SomePieceStale, SomeFeederDropped, SomePieceSurvives;
    StepDrift(p, e);
    if e.Select? && e.collecting != map[] {
      PurgeDrift(p, e.collecting);
      PurgeKeepsCountExact(p, e.collecting);
    }
  }

  lemma EmptyIsExact()
    ensures Drift(Empty) == 0
  {
    TotalNone();
  }

  /** Along a run from the empty mempool the counter is exact at every moment if and only if
      every purge of the run is clean. */
  lemma {:induction false} CountIsExact(es: seq<Event>)
    ensures ExactThroughout(es) <==> CleanRun(es)
  {
    hide Step, CleanPurge, Drift, Valid;
    if es == [] {
      EmptyIsExact();
      assert forall k :: 0 <= k <= |es| ==> es[..k] == [];
    } else {
      var init, last := es[..|es| - 1], es[|es| - 1];
      assert forall k :: 0 <= k <= |init| ==> init[..k] == es[..k];
      assert forall k :: 0 <= k < |init| ==> init[k] == es[k];
      assert es[..|es|] == es && init[..|init|] == init;
      CountIsExact(init);
      ReachableIsValid(init);
      if Drift(Run(Empty, init)) == 0 {
        StepKeepsCountExact(Run(Empty, init), last);
      }
      assert ExactThroughout(es) <==> ExactThroughout(init) && Drift(Run(Empty, es)) == 0;
      assert CleanRun(es) <==> CleanRun(init) && CleanPurge(Run(Empty, init), last);
    }
  }

  /** For one: after an insertion, a selection for another block leaves the expired piece cached and
      takes it off the counter. */
  lemma ExpiredPieceStays(tx: Tx, body: Body, b: BlockNumber)
    requires IsRawData(tx) && tx.msgs[0].basedBlock != b
    ensures var collecting := map[FeederOf(tx) := b];
            var p := Run(Empty, [Insert(tx, Some(body)), Select(collecting, [], map[])]);
            && SlotAt(p.cache, FeederOf(tx), body.index) == [PieceOf(tx, body)]
            && !AllCurrent(p.cache, collecting) && Drift(p) == -1
  {
    var collecting := map[FeederOf(tx) := b];
    var es := [Insert(tx, Some(body)), Select(collecting, [], map[])];
    assert es[..1] == [es[0]] && [es[0]][..0] == [] && es[..1][..0] == [];
    var p := InsertStep(Empty, tx, Some(body)).0;
    assert Run(Empty, es[..1]) == p && Run(Empty, es) == Step(p, es[1]);
    OnePieceExpires(tx, body, b);
    NothingToFill(p, collecting);
  }

  lemma OnePieceExpires(tx: Tx, body: Body, b: BlockNumber)
    requires IsRawData(tx) && tx.msgs[0].basedBlock != b
    ensures var collecting := map[FeederOf(tx) := b];
            var q := PurgeStep(InsertStep(Empty, tx, Some(body)).0, collecting);
            && SlotAt(q.cache, FeederOf(tx), body.index) == [PieceOf(tx, body)]
            && !AllCurrent(q.cache, collecting) && Drift(q) == -1
  {
    var p := InsertStep(Empty, tx, Some(body)).0;
    var f, collecting := FeederOf(tx), map[FeederOf(tx) := b];
    assert [] + [PieceOf(tx, body)] == [PieceOf(tx, body)];
    assert forall g :: g in p.cache <==> g == f;
    assert forall i :: i in p.cache[f] <==> i == body.index;
    assert p.cache[f][body.index] == [PieceOf(tx, body)];
    hide Total, Stale, Survivors, AllCurrent;
    InsertKeepsValid(Empty, tx, Some(body));
    InsertKeepsDrift(Empty, tx, Some(body));
    EmptyIsExact();
    assert !SomePieceSurvives(p.cache, collecting);
    PurgeLeavesOnlyCurrent(p, collecting);
    PurgeDrift(p, collecting);
    SurvivorsNonEmpty(p.cache, collecting);
    TotalSplit(p.cache, collecting);
    assert p.cache - collecting.Keys == map[];
    TotalNone();
  }

  lemma NothingToFill(p: Pool, collecting: map<FeederId, BlockNumber>)
    requires collecting != map[]
    ensures SelectStep(p, collecting, [], map[]).0 == PurgeStep(p, collecting)
  {
    NothingFilled(PurgeStep(p, collecting).cache, Listing(Ascending, Missing([], collecting.Keys)));
  }

  lemma {:induction false} NothingFilled(c: Cache, fs: seq<FeederId>)
    ensures FillCache(c, fs, map[]) == c
  {
    if fs != [] {
      NothingFilled(c, fs[..|fs| - 1]);
    }
  }

  // --------------------------------------------------------------------- Insert

  /** Some piece cached for the feeder, under whatever index, has the same index, data and proof. */
  ghost predicate PieceIsCached(c: Cache, f: FeederId, b: Body) {
    exists i: PieceIndex, x :: x in SlotAt(c, f, i) && x.index == b.index && x.rawData == b.rawData && x.proof == b.proof
  }

  /** `Insert` fails exactly on a raw-data transaction whose piece is unreadable or cached for its
      feeder already, and then changes nothing; else it appends the piece to its slot and touches
      no other. */
  lemma InsertEffect(p: Pool, tx: Tx, parsed: Option<Body>, g: FeederId, j: PieceIndex)
    requires Valid(p.cache)
    ensures var (q, outcome) := InsertStep(p, tx, parsed);
            && !outcome.Panicked?
            && (outcome.Failed? <==> IsRawData(tx) && (parsed.None? || PieceIsCached(p.cache, tx.msgs[0].feederID, parsed.value)))
            && (outcome.Failed? ==> q == p)
            && SlotAt(q.cache, g, j) ==
               if outcome.Done? && IsRawData(tx) && tx.msgs[0].feederID == g && parsed.value.index == j
               then SlotAt(p.cache, g, j) + [Piece(j, parsed.value.rawData, parsed.value.proof, tx.msgs[0].basedBlock, tx)]
               else SlotAt(p.cache, g, j)
  {
    if IsRawData(tx) && parsed.Some? {
      HeldIsCached(p.cache, FeederOf(tx), PieceOf(tx, parsed.value));
    }
  }

  lemma HeldIsCached(c: Cache, f: FeederId, piece: Piece)
    requires Valid(c)
    ensures Holds(SlotAt(c, f, piece.index), piece) <==>
              PieceIsCached(c, f, Body(piece.index, piece.rawData, piece.proof))
  {
    if PieceIsCached(c, f, Body(piece.index, piece.rawData, piece.proof)) {
      var i: PieceIndex, x :|
        x in SlotAt(c, f, i) && x.index == piece.index && x.rawData == piece.rawData && x.proof == piece.proof;
      assert ValidSlots(c[f], f);
      assert ValidSlot(c[f][i], f, i);
    }
    if Holds(SlotAt(c, f, piece.index), piece) {
      var s := SlotAt(c, f, piece.index);
      var k :| 0 <= k < |s| && EqualsTo(s[k], piece);
      assert s[k] in s;
    }
  }

  // --------------------------------------------------------------------- Remove

  /** `Remove` panics exactly on a raw-data transaction without a readable piece whose feeder
      has cached pieces; else it empties exactly the slots of the transaction's feeder up to the
      piece's index. */
  lemma RemoveEffect(p: Pool, tx: Tx, parsed: Option<Body>, g: FeederId, j: PieceIndex)
    requires Valid(p.cache)
    ensures var (q, outcome) := RemoveStep(p, tx, parsed);
            && !outcome.Failed?
            && (outcome.Panicked? <==>
                  IsRawData(tx) && parsed.None? && exists i: PieceIndex :: SlotAt(p.cache, tx.msgs[0].feederID, i) != [])
            && (outcome.Panicked? ==> q == p)
            && SlotAt(q.cache, g, j) ==
               if IsRawData(tx) && tx.msgs[0].feederID == g && parsed.Some? && j <= parsed.value.index
               then [] else SlotAt(p.cache, g, j)
  {
    if IsRawData(tx) && FeederOf(tx) in p.cache {
      var f := FeederOf(tx);
      assert ValidSlots(p.cache[f], f);
      var i :| i in p.cache[f];
      assert ValidSlot(p.cache[f][i], f, i);
      assert SlotAt(p.cache, f, i) != [];
      if parsed.Some? {
        CutSlot(p, f, parsed.value.index, g, j);
      }
    }
  }

  /** Exactly the pieces of this feeder with a larger index stay; other feeders are untouched. */
  lemma CutSlot(p: Pool, f: FeederId, i: PieceIndex, g: FeederId, j: PieceIndex)
    ensures SlotAt(Cut(p, f, i).cache, g, j) == if g == f && j <= i then [] else SlotAt(p.cache, g, j)
  {
    if f in p.cache {
      assert j in Above(p.cache[f], i) <==> j in p.cache[f] && j > i;
    }
  }

  lemma CutTwice(p: Pool, f: FeederId, i: PieceIndex, j: PieceIndex)
    ensures Cut(Cut(p, f, i), f, j) == Cut(p, f, if i < j then j else i)
  {
    hide Size;
    var k := if i < j then j else i;
    if f in p.cache {
      var m := p.cache[f];
      assert Above(Above(m, i), j) == Above(m, k);
      CutSizes(m, i, j);
      if Above(m, i) == map[] {
        assert Above(m, k) == map[];
        assert UpTo(Above(m, i), j) == map[];
        SizeNone();
      }
    }
  }

  lemma CutSizes(m: Slots, i: PieceIndex, j: PieceIndex)
    ensures Size(UpTo(m, i)) + Size(UpTo(Above(m, i), j)) == Size(UpTo(m, if i < j then j else i))
  {
    hide Size;
    var k := if i < j then j else i;
    SizeSplit(m, i);
    SizeSplit(m, k);
    SizeSplit(Above(m, i), j);
    assert Above(Above(m, i), j) == Above(m, k);
  }

  lemma CutsCommute(p: Pool, f: FeederId, i: PieceIndex, g: FeederId, j: PieceIndex)
    ensures Cut(Cut(p, f, i), g, j) == Cut(Cut(p, g, j), f, i)
  {
    if f == g {
      CutTwice(p, f, i, j);
      CutTwice(p, f, j, i);
    } else {
      CutOther(p, f, i, g);
      CutOther(p, g, j, f);
      assert Cut(Cut(p, f, i), g, j).cache == Cut(Cut(p, g, j), f, i).cache;
    }
  }

  lemma CutOther(p: Pool, f: FeederId, i: PieceIndex, g: FeederId)
    requires f != g
    ensures g in Cut(p, f, i).cache <==> g in p.cache
    ensures g in p.cache ==> Cut(p, f, i).cache[g] == p.cache[g]
  {
  }

  /** The events of `es` all remove a readable piece of feeder `f`. */
  predicate RemovesOf(es: seq<Event>, f: FeederId) {
    forall k :: 0 <= k < |es| ==> es[k].Remove? && RawFor(es[k].tx, f) && es[k].parsed.Some?
  }

  function MaxIndex(es: seq<Event>, f: FeederId): (m: PieceIndex)
    requires es != [] && RemovesOf(es, f)
    ensures forall k :: 0 <= k < |es| ==> es[k].parsed.value.index <= m
    ensures exists k :: 0 <= k < |es| && es[k].parsed.value.index == m
  {
    var init, i := es[..|es| - 1], es[|es| - 1].parsed.value.index;
    if init == [] then i
    else
      var m := MaxIndex(init, f);
      assert forall k :: 0 <= k < |init| ==> es[k] == init[k];
      if m < i then i else m
  }

  /** Any sequence of removals for one feeder, in whatever order, is one removal of the largest index. */
  lemma {:induction false} RemovesAreOneRemove(p: Pool, es: seq<Event>, f: FeederId)
    requires es != [] && RemovesOf(es, f)
    ensures Run(p, es) == Cut(p, f, MaxIndex(es, f))
  {
    var init, last := es[..|es| - 1], es[|es| - 1];
    var i := last.parsed.value.index;
    var q := Run(p, init);
    assert Step(q, last) == Cut(q, f, i);
    if init != [] {
      RemovesAreOneRemove(p, init, f);
      CutTwice(p, f, MaxIndex(init, f), i);
    }
  }
}
