/** The state of the oracle mempool (app/mempool.go) and the effect of each operation on it. */
module Pool {
  import opened Common
  import opened OracleTx
  import opened Order

  type Slots = map<PieceIndex, seq<Piece>>
  type Cache = map<FeederId, Slots>

  /** `ImuaMempool`: the cached pieces and the counter kept beside them. */
  datatype Pool = Pool(cache: Cache, count: int)

  const Empty := Pool(map[], 0)

  /** What the feeder manager reads from a raw-data message, if it is well formed. */
  datatype Body = Body(index: PieceIndex, rawData: Bytes, proof: seq<HashNode>)

  datatype Outcome = Done | Failed | Panicked

  /** The pieces cached for one piece index of one feeder. */
  function SlotAt(c: Cache, f: FeederId, i: PieceIndex): (s: seq<Piece>) {
    if f in c && i in c[f] then c[f][i] else []
  }

  function PieceOf(tx: Tx, b: Body): (p: Piece)
    requires IsRawData(tx)
  {
    Piece(b.index, b.rawData, b.proof, tx.msgs[0].basedBlock, tx)
  }

  // ---------------------------------------------------------------- invariant

  /** The piece is filed under its own index, and its transaction is the raw-data transaction
      of the feeder it is filed under and names the block it is based on. */
  predicate WellFiled(p: Piece, f: FeederId, i: PieceIndex) {
    p.index == i && RawFor(p.tx, f) && p.baseBlock == p.tx.msgs[0].basedBlock
  }

  predicate NoEqualPieces(s: seq<Piece>) {
    forall k, l :: 0 <= k < l < |s| ==> !EqualsTo(s[k], s[l])
  }

  ghost predicate ValidSlot(s: seq<Piece>, f: FeederId, i: PieceIndex) {
    s != [] && NoEqualPieces(s) && forall k :: 0 <= k < |s| ==> WellFiled(s[k], f, i)
  }

  ghost predicate ValidSlots(m: Slots, f: FeederId) {
    m != map[] && forall i :: i in m ==> ValidSlot(m[i], f, i)
  }

  ghost predicate Valid(c: Cache) {
    forall f :: f in c ==> ValidSlots(c[f], f)
  }

  /** Without empty parts, a cache is determined by its slots. */
  lemma CacheBySlots(c: Cache, d: Cache)
    requires Valid(c) && Valid(d)
    requires forall f, i :: SlotAt(c, f, i) == SlotAt(d, f, i)
    ensures c == d
  {
    SlotsInclude(c, d);
    SlotsInclude(d, c);
    forall f | f in c
      ensures c[f] == d[f]
    {
      forall i | i in c[f]
        ensures c[f][i] == d[f][i]
      {
        assert SlotAt(c, f, i) == SlotAt(d, f, i);
      }
    }
  }

  lemma SlotsInclude(c: Cache, d: Cache)
    requires Valid(c)
    requires forall f, i :: SlotAt(c, f, i) == SlotAt(d, f, i)
    ensures forall f :: f in c ==> f in d && forall i :: i in c[f] ==> i in d[f]
  {
    forall f | f in c
      ensures f in d && forall i :: i in c[f] ==> i in d[f]
    {
      forall i | i in c[f]
        ensures f in d && i in d[f]
      {
        assert SlotAt(c, f, i) == SlotAt(d, f, i);
        assert ValidSlot(c[f][i], f, i);
      }
      var i :| i in c[f];
    }
  }

  // ----------------------------------------------------------------- counting

  ghost function Sizes(m: Slots): (w: map<PieceIndex, nat>) {
    map i | i in m :: |m[i]|
  }

  ghost function Size(m: Slots): (n: nat) {
    Sum(Sizes(m))
  }

  ghost function Totals(c: Cache): (w: map<FeederId, nat>) {
    map f | f in c :: Size(c[f])
  }

  /** The number of cached pieces, which `count` is meant to be. */
  ghost function Total(c: Cache): (n: nat) {
    Sum(Totals(c))
  }

  /** How far the counter is off. */
  ghost function Drift(p: Pool): (d: int) {
    p.count - Total(p.cache)
  }

  lemma TotalPut(c: Cache, f: FeederId, m: Slots)
    ensures Total(c[f := m]) == Total(c - {f}) + Size(m)
  {
    SumTakeOut(Totals(c[f := m]), f);
    assert Totals(c[f := m]) - {f} == Totals(c - {f});
  }

  lemma TotalWithout(c: Cache, f: FeederId)
    requires f in c
    ensures Total(c) == Total(c - {f}) + Size(c[f])
  {
    TotalPut(c, f, c[f]);
    assert c[f := c[f]] == c;
  }

  lemma SizePut(m: Slots, i: PieceIndex, s: seq<Piece>)
    ensures Size(m[i := s]) == Size(m - {i}) + |s|
  {
    SumTakeOut(Sizes(m[i := s]), i);
    assert Sizes(m[i := s]) - {i} == Sizes(m - {i});
  }

  lemma SizeWithout(m: Slots, i: PieceIndex)
    requires i in m
    ensures Size(m) == Size(m - {i}) + |m[i]|
  {
    SizePut(m, i, m[i]);
    assert m[i := m[i]] == m;
  }

  // ------------------------------------------------------------------- Insert

  /** One slot replaced; `s` is not empty. */
  function WithSlot(c: Cache, f: FeederId, i: PieceIndex, s: seq<Piece>): (d: Cache)
    ensures forall g, j :: SlotAt(d, g, j) == if g == f && j == i then s else SlotAt(c, g, j)
  {
    c[f := if f in c then c[f][i := s] else map[i := s]]
  }

  predicate Holds(s: seq<Piece>, p: Piece) {
    exists k :: 0 <= k < |s| && EqualsTo(s[k], p)
  }

  function InsertStep(p: Pool, tx: Tx, parsed: Option<Body>): (r: (Pool, Outcome)) {
    if !IsRawData(tx) then (p, Done)
    else if parsed.None? then (p, Failed)
    else
      var piece := PieceOf(tx, parsed.value);
      var f := FeederOf(tx);
      var s := SlotAt(p.cache, f, piece.index);
      if Holds(s, piece) then (p, Failed)
      else (Pool(WithSlot(p.cache, f, piece.index, s + [piece]), p.count + 1), Done)
  }

  // ------------------------------------------------------------------- Remove

  function Above(m: Slots, i: PieceIndex): (r: Slots) {
    map j | j in m && j > i :: m[j]
  }

  function UpTo(m: Slots, i: PieceIndex): (r: Slots) {
    map j | j in m && j <= i :: m[j]
  }

  /** Cutting feeder `f` down to the indices above `i`. */
  function CutCache(c: Cache, f: FeederId, i: PieceIndex): (d: Cache) {
    if f !in c then c
    else if Above(c[f], i) == map[] then c - {f}
    else c[f := Above(c[f], i)]
  }

  ghost function Cut(p: Pool, f: FeederId, i: PieceIndex): (r: Pool) {
    Pool(CutCache(p.cache, f, i), p.count - if f in p.cache then Size(UpTo(p.cache[f], i)) else 0)
  }

  /** A raw-data transaction whose piece cannot be read makes `Remove` dereference nil as soon
      as its feeder has a cached piece. */
  ghost function RemoveStep(p: Pool, tx: Tx, parsed: Option<Body>): (r: (Pool, Outcome)) {
    if !IsRawData(tx) || FeederOf(tx) !in p.cache then (p, Done)
    else if parsed.Some? then (Cut(p, FeederOf(tx), parsed.value.index), Done)
    else if p.cache[FeederOf(tx)] == map[] then (Pool(p.cache - {FeederOf(tx)}, p.count), Done)
    else (p, Panicked)
  }

  // -------------------------------------------------------------------- purge

  /** The pieces of a slot based on block `b`, in order. */
  function Current(s: seq<Piece>, b: BlockNumber): (r: seq<Piece>)
    ensures |r| <= |s|
  {
    if s == [] then []
    else Current(s[..|s| - 1], b) + if s[|s| - 1].baseBlock == b then [s[|s| - 1]] else []
  }

  function CurrentSlots(m: Slots, b: BlockNumber): (r: Slots) {
    map i | i in m && Current(m[i], b) != [] :: Current(m[i], b)
  }

  /** The pieces that survive a purge. */
  function Survivors(c: Cache, collecting: map<FeederId, BlockNumber>): (r: Cache) {
    map f | f in c && f in collecting && CurrentSlots(c[f], collecting[f]) != map[] ::
      CurrentSlots(c[f], collecting[f])
  }

  function StaleOf(s: seq<Piece>, b: BlockNumber): (n: nat) {
    |s| - |Current(s, b)|
  }

  ghost function StaleSizes(m: Slots, b: BlockNumber): (w: map<PieceIndex, nat>) {
    map i | i in m :: StaleOf(m[i], b)
  }

  ghost function StaleIn(m: Slots, b: BlockNumber): (n: nat) {
    Sum(StaleSizes(m, b))
  }

  ghost function StaleTotals(c: Cache, collecting: map<FeederId, BlockNumber>): (w: map<FeederId, nat>) {
    map f | f in c && f in collecting :: StaleIn(c[f], collecting[f])
  }

  /** The pieces of collecting feeders that are based on another block. */
  ghost function Stale(c: Cache, collecting: map<FeederId, BlockNumber>): (n: nat) {
    Sum(StaleTotals(c, collecting))
  }

  /** The pieces of feeders that no longer collect. */
  ghost function Dropped(c: Cache, collecting: map<FeederId, BlockNumber>): (n: nat) {
    Total(c - collecting.Keys)
  }

  /** `clearExpiredFeederIDcache`: the stale pieces are taken off the counter, the dropped ones
      are not; and the cache is replaced only if a piece survives. */
  ghost function PurgeStep(p: Pool, collecting: map<FeederId, BlockNumber>): (r: Pool) {
    var s := Survivors(p.cache, collecting);
    Pool(if s == map[] then p.cache else s, p.count - Stale(p.cache, collecting))
  }

  // --------------------------------------------------------------------- pick

  function Rotate(s: seq<Piece>): (r: seq<Piece>)
    ensures |r| == |s|
  {
    if |s| <= 1 then s else s[1..] + [s[0]]
  }

  /** The transaction a pick of the slot hands out, as a list of at most one. */
  function HeadAt(c: Cache, f: FeederId, i: PieceIndex): (r: seq<Tx>) {
    if SlotAt(c, f, i) == [] then [] else [SlotAt(c, f, i)[0].tx]
  }

  function PickCache(c: Cache, f: FeederId, i: PieceIndex): (d: Cache)
    ensures forall g, j :: SlotAt(d, g, j) == if g == f && j == i then Rotate(SlotAt(c, g, j)) else SlotAt(c, g, j)
  {
    if SlotAt(c, f, i) == [] then c else WithSlot(c, f, i, Rotate(SlotAt(c, f, i)))
  }

  // ------------------------------------------------------------------- Select

  /** Which transactions of a request are kept: all but raw-data ones, and of those the first
      one for each collecting feeder. */
  predicate Keep(txs: seq<Tx>, n: nat, collecting: set<FeederId>)
    requires n < |txs|
  {
    IsRawData(txs[n]) ==>
      FeederOf(txs[n]) in collecting && RawsFor(txs[..n], FeederOf(txs[n])) == []
  }

  function Kept(txs: seq<Tx>, collecting: set<FeederId>): (r: seq<Tx>) {
    if txs == [] then []
    else
      Kept(txs[..|txs| - 1], collecting)
      + if Keep(txs, |txs| - 1, collecting) then [txs[|txs| - 1]] else []
  }

  /** The transactions of a request that can be decoded. */
  function Decoded(request: seq<Option<Tx>>): (r: seq<Tx>) {
    if request == [] then []
    else
      Decoded(request[..|request| - 1])
      + if request[|request| - 1].Some? then [request[|request| - 1].value] else []
  }

  /** The collecting feeders the request has nothing for. */
  function Missing(txs: seq<Tx>, collecting: set<FeederId>): (r: set<FeederId>) {
    set f | f in collecting && RawsFor(txs, f) == []
  }

  lemma KeptPush(txs: seq<Tx>, tx: Tx, collecting: set<FeederId>)
    ensures Kept(txs + [tx], collecting)
         == if IsRawData(tx) && FeederOf(tx) !in Missing(txs, collecting) then Kept(txs, collecting)
            else Kept(txs, collecting) + [tx]
    ensures Missing(txs + [tx], collecting)
         == Missing(txs, collecting) - if IsRawData(tx) then {FeederOf(tx)} else {}
  {
    assert (txs + [tx])[..|txs|] == txs;
    forall f | f in collecting
      ensures RawsFor(txs + [tx], f) == [] <==> RawsFor(txs, f) == [] && !RawFor(tx, f)
    {
      RawsForPush(txs, tx, f);
    }
  }

  lemma DecodedPush(request: seq<Option<Tx>>, k: nat)
    requires k < |request|
    ensures Decoded(request[..k + 1])
         == if request[k].Some? then Decoded(request[..k]) + [request[k].value] else Decoded(request[..k])
  {
    assert request[..k + 1][..k] == request[..k];
  }

  predicate Ascending(f: FeederId, g: FeederId) {
    f < g
  }

  lemma SortedInit(fs: seq<FeederId>)
    requires Sorted(Ascending, fs) && fs != []
    ensures Sorted(Ascending, fs[..|fs| - 1])
    ensures forall f :: f in fs[..|fs| - 1] ==> f in fs && f < fs[|fs| - 1]
    ensures forall f :: f in fs <==> f in fs[..|fs| - 1] || f == fs[|fs| - 1]
  {
    assert fs == fs[..|fs| - 1] + [fs[|fs| - 1]];
  }

  /** The feeders of a list that are in a set. */
  function Restrict(fs: seq<FeederId>, s: set<FeederId>): (r: seq<FeederId>) {
    if fs == [] then []
    else
      var f := fs[|fs| - 1];
      var r := Restrict(fs[..|fs| - 1], s);
      if f in s then r + [f] else r
  }

  lemma RestrictPush(fs: seq<FeederId>, k: nat, s: set<FeederId>)
    requires k < |fs|
    ensures Restrict(fs[..k + 1], s) == if fs[k] in s then Restrict(fs[..k], s) + [fs[k]] else Restrict(fs[..k], s)
  {
    assert fs[..k + 1][..k] == fs[..k];
  }

  lemma {:induction false} RestrictSorted(fs: seq<FeederId>, s: set<FeederId>)
    requires Sorted(Ascending, fs)
    ensures Sorted(Ascending, Restrict(fs, s))
    ensures forall f :: f in Restrict(fs, s) <==> f in fs && f in s
  {
    if fs != [] {
      var init := fs[..|fs| - 1];
      SortedInit(fs);
      RestrictSorted(init, s);
      assert forall k :: 0 <= k < |Restrict(init, s)| ==> Restrict(init, s)[k] in init;
    }
  }

  function FillCache(c: Cache, fs: seq<FeederId>, next: map<FeederId, PieceIndex>): (d: Cache) {
    if fs == [] then c
    else
      var d := FillCache(c, fs[..|fs| - 1], next);
      var f := fs[|fs| - 1];
      if f in next then PickCache(d, f, next[f]) else d
  }

  /** The pieces handed out for feeders `fs`, in that order. */
  function Fills(c: Cache, fs: seq<FeederId>, next: map<FeederId, PieceIndex>): (r: seq<Tx>) {
    if fs == [] then []
    else
      var f := fs[|fs| - 1];
      Fills(c, fs[..|fs| - 1], next) + if f in next then HeadAt(c, f, next[f]) else []
  }

  /** `Select`: `collecting` maps each collecting feeder to the number the base blocks of its pieces are
      compared with, `request` is the list of transactions after decoding, and `next` the index each
      feeder expects next. */
  ghost function SelectStep(
    p: Pool, collecting: map<FeederId, BlockNumber>, request: seq<Option<Tx>>, next: map<FeederId, PieceIndex>
  ): (r: (Pool, seq<Tx>))
  {
    var txs := Decoded(request);
    if collecting == map[] then (Empty, NonRaws(txs))
    else
      var purged := PurgeStep(p, collecting);
      var missing := Listing(Ascending, Missing(txs, collecting.Keys));
      ( Pool(FillCache(purged.cache, missing, next), purged.count),
        Kept(txs, collecting.Keys) + Fills(purged.cache, missing, next) )
  }
}
