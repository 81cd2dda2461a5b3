/** A node that collects raw data block by block and restarts now and then: what
    x/oracle/keeper/feedermanagement writes to the store and rebuilds from it. */
module MerkleNode {
  import opened Common
  import opened OracleTx
  import opened Merkle
  import opened MerkleCollect
  import opened MerkleRecovery
  import opened MerkleStore

  /** What is collected, with the hash function and the piece size in use, as `NewMT` has accepted them when
      collection was set up. */
  datatype Job = Job(sha: Bytes -> Bytes, leafCount: nat, pieceSize: nat, root: Bytes)

  /** The store of one feeder: cleared, or with the index of the next piece, pieces and proof nodes. */
  datatype Store = Cleared | Kept(nextIndex: nat, rawData: map<nat, Bytes>, nodes: map<nat, Bytes>)

  /** A node is up, with a tree in memory while data is collected, or it has panicked. */
  datatype Node = Up(tree: Option<Tracker>, store: Store) | Crashed

  /** A block with the submissions in it, or a restart between blocks. */
  datatype Act = Block(xs: seq<Submission>) | Restart

  ghost predicate NodeOk(j: Job, n: Node) {
    j.leafCount > 0 && (n.Up? && n.tree.Some? ==> Rooted(j.leafCount, n.tree.value))
  }

  ghost function LiveRun(j: Job, xs: seq<Submission>): (st: Tracker)
    requires j.leafCount > 0
    ensures Rooted(j.leafCount, st)
  {
    Run(j.sha, j.leafCount, j.pieceSize, j.root, xs)
  }

  /** The pieces of a list under their indices. */
  ghost function Indexed(ps: seq<Bytes>): (m: map<nat, Bytes>)
    ensures forall i: nat :: i in m <==> i < |ps|
    ensures forall i: nat :: i in m ==> m[i] == ps[i]
  {
    map i: nat | i < |ps| :: ps[i]
  }

  /** A block and its end: while data is still missing, the reported proof nodes are merged into the store
      and the index of the next piece is written; once it is complete, everything is cleared. `writes` tells
      whether accepted pieces are written to the store too. */
  ghost function BlockStep(j: Job, writes: bool, n: Node, xs: seq<Submission>): (r: Node)
    requires NodeOk(j, n)
    ensures NodeOk(j, r)
  {
    if n.Crashed? || n.tree.None? || n.store.Cleared? then n
    else
      var st := RunFrom(j.sha, j.leafCount, j.pieceSize, n.tree.value, xs);
      var proof := Reported(j.sha, j.leafCount, j.pieceSize, n.tree.value, xs);
      if |st.pieces| < j.leafCount then
        Up(Some(st),
           Kept(if |st.pieces| == 0 then n.store.nextIndex else |st.pieces|,
                if writes then n.store.rawData + Indexed(st.pieces) else n.store.rawData,
                MapOf(proof) + n.store.nodes))
      else Up(None, Cleared)
  }

  /** A restart rebuilds the tree from the store, and panics if a piece is missing. */
  ghost function RestartStep(j: Job, n: Node): (r: Node)
    requires NodeOk(j, n)
    ensures NodeOk(j, r)
  {
    if n.Crashed? then n
    else if n.store.Cleared? then Up(None, Cleared)
    else
      match StoredPieces(n.store.nextIndex, n.store.rawData)
      case None => Crashed
      case Some(ps) => Up(Some(Tracker(Start(j.leafCount, j.root).hashes + n.store.nodes, ps)), n.store)
  }

  ghost function NodeRun(j: Job, writes: bool, acts: seq<Act>): (n: Node)
    requires j.leafCount > 0
    ensures NodeOk(j, n)
  {
    if acts == [] then Up(Some(Start(j.leafCount, j.root)), Kept(0, map[], map[]))
    else
      var n := NodeRun(j, writes, acts[..|acts| - 1]);
      match acts[|acts| - 1]
      case Block(xs) => BlockStep(j, writes, n, xs)
      case Restart => RestartStep(j, n)
  }

  /** All submissions of the blocks. */
  function Taken(acts: seq<Act>): (xs: seq<Submission>) {
    if acts == [] then []
    else Taken(acts[..|acts| - 1]) + if acts[|acts| - 1].Block? then acts[|acts| - 1].xs else []
  }

  /** Some pieces are collected and some are missing. */
  ghost predicate Underway(j: Job, xs: seq<Submission>)
    requires j.leafCount > 0
  {
    0 < |LiveRun(j, xs).pieces| < j.leafCount
  }

  /** The node is like one that never stopped, and its store is up to date. */
  ghost predicate InStepWith(j: Job, writes: bool, n: Node, xs: seq<Submission>)
    requires j.leafCount > 0
  {
    var live := LiveRun(j, xs);
    && n.Up? && |live.pieces| <= j.leafCount
    && if |live.pieces| == j.leafCount then n == Up(None, Cleared)
       else
         && n.tree.Some? && Alike(j.leafCount, live, n.tree.value)
         && n.store == Kept(|live.pieces|, if writes then Indexed(live.pieces) else map[],
                            Persisted(j.sha, j.leafCount, j.pieceSize, j.root, xs))
  }

  lemma {:induction false} StoredIndexed(ps: seq<Bytes>, k: nat)
    requires k <= |ps|
    ensures StoredPieces(k, Indexed(ps)) == Some(ps[..k])
  {
    if k > 0 {
      StoredIndexed(ps, k - 1);
      assert ps[..k - 1] + [ps[k - 1]] == ps[..k];
    }
  }

  /** Once the tree is complete nothing is accepted any more. */
  lemma {:induction false} CompleteStays(j: Job, st: Tracker, ys: seq<Submission>)
    requires Rooted(j.leafCount, st) && |st.pieces| == j.leafCount
    ensures RunFrom(j.sha, j.leafCount, j.pieceSize, st, ys) == st
  {
    hide Settle, Shape, Rooted;
    if ys != [] {
      CompleteStays(j, st, ys[..|ys| - 1]);
    }
  }

  lemma StartInStep(j: Job, writes: bool)
    requires j.leafCount > 0
    ensures InStepWith(j, writes, NodeRun(j, writes, []), [])
  {
    hide Shape, Shadows;
    RecoveredIsAlike(j.sha, j.leafCount, j.pieceSize, j.root, []);
    var h := Start(j.leafCount, j.root).hashes;
    assert map[] + h == h;
    assert Indexed([]) == map[];
  }

  lemma PiecesGrow(j: Job, st: Tracker, ys: seq<Submission>)
    requires Rooted(j.leafCount, st)
    ensures st.pieces <= RunFrom(j.sha, j.leafCount, j.pieceSize, st, ys).pieces
  {
    hide Settle, Shape, Rooted;
    if ys != [] {
      PiecesGrow(j, st, ys[..|ys| - 1]);
    }
  }

  lemma BlockInStep(j: Job, writes: bool, n: Node, xs: seq<Submission>, block: seq<Submission>)
    requires j.leafCount > 0 && NodeOk(j, n) && InStepWith(j, writes, n, xs)
    ensures InStepWith(j, writes, BlockStep(j, writes, n, block), xs + block)
  {
    hide Run, Reported, Persisted, MapOf, Submit, Shape, Shadows, RunFrom;
    var live := LiveRun(j, xs);
    RunConcat(j.sha, j.leafCount, j.pieceSize, j.root, xs, block);
    if |live.pieces| == j.leafCount {
      CompleteStays(j, live, block);
    } else {
      AlikeRuns(j.sha, j.leafCount, j.pieceSize, live, n.tree.value, block);
      PersistedUnion(j.sha, j.leafCount, j.pieceSize, j.root, xs, block);
      PiecesGrow(j, live, block);
      IndexedGrows(live.pieces, LiveRun(j, xs + block).pieces);
    }
  }

  lemma IndexedGrows(a: seq<Bytes>, b: seq<Bytes>)
    requires a <= b
    ensures Indexed(a) + Indexed(b) == Indexed(b)
  {
  }

  lemma RestartInStep(j: Job, writes: bool, n: Node, xs: seq<Submission>)
    requires j.leafCount > 0 && NodeOk(j, n) && InStepWith(j, writes, n, xs)
    ensures if !writes && Underway(j, xs) then RestartStep(j, n).Crashed? else InStepWith(j, writes, RestartStep(j, n), xs)
  {
    hide Persisted, Shape, Shadows, Run, StoredPieces;
    var live := LiveRun(j, xs);
    if |live.pieces| < j.leafCount {
      if !writes && |live.pieces| > 0 {
        PieceMissing(|live.pieces|, map[], 0);
      } else {
        RestoredPieces(live.pieces, writes);
        RecoveredIsAlike(j.sha, j.leafCount, j.pieceSize, j.root, xs);
        PersistedIsLive(j.sha, j.leafCount, j.pieceSize, j.root, xs);
        var h, m := Start(j.leafCount, j.root).hashes, Persisted(j.sha, j.leafCount, j.pieceSize, j.root, xs);
        assert h + m == m + h;
      }
    }
  }

  lemma RestoredPieces(ps: seq<Bytes>, writes: bool)
    requires writes || ps == []
    ensures StoredPieces(|ps|, if writes then Indexed(ps) else map[]) == Some(ps)
  {
    if writes {
      StoredIndexed(ps, |ps|);
      assert ps[..|ps|] == ps;
    }
  }

  /** At some restart data collection was under way. */
  ghost predicate RestartsUnderway(j: Job, acts: seq<Act>)
    requires j.leafCount > 0
  {
    exists k :: 0 <= k < |acts| && acts[k].Restart? && Underway(j, Taken(acts[..k]))
  }

  /** For every list of blocks and restarts: unless pieces are written to the store, the node panics exactly
      if it restarts while data is being collected; as long as it is up, it is like one that never stopped
      and its store is up to date. */
  lemma {:induction false} NodeInStep(j: Job, writes: bool, acts: seq<Act>)
    requires j.leafCount > 0
    ensures NodeRun(j, writes, acts).Crashed? <==> !writes && RestartsUnderway(j, acts)
    ensures NodeRun(j, writes, acts).Up? ==> InStepWith(j, writes, NodeRun(j, writes, acts), Taken(acts))
  {
    hide InStepWith, Underway, BlockStep, RestartStep;
    if acts == [] {
      StartInStep(j, writes);
      StartIsUp(j, writes);
    } else {
      var init, act := acts[..|acts| - 1], acts[|acts| - 1];
      NodeInStep(j, writes, init);
      UnderwayNext(j, acts);
      var n, xs := NodeRun(j, writes, init), Taken(init);
      StaysDown(j, writes, n, act);
      if n.Up? {
        match act
        case Block(block) =>
          BlockInStep(j, writes, n, xs, block);
          InStepIsUp(j, writes, BlockStep(j, writes, n, block), xs + block);
        case Restart =>
          RestartInStep(j, writes, n, xs);
          assert Taken(acts) == xs;
          if writes || !Underway(j, xs) {
            InStepIsUp(j, writes, RestartStep(j, n), xs);
          }
      }
    }
  }

  lemma StartIsUp(j: Job, writes: bool)
    requires j.leafCount > 0
    ensures NodeRun(j, writes, []).Up?
  {
  }

  lemma InStepIsUp(j: Job, writes: bool, n: Node, xs: seq<Submission>)
    requires j.leafCount > 0 && InStepWith(j, writes, n, xs)
    ensures n.Up?
  {
  }

  lemma StaysDown(j: Job, writes: bool, n: Node, act: Act)
    requires NodeOk(j, n)
    ensures n.Crashed? && act.Block? ==> BlockStep(j, writes, n, act.xs).Crashed?
    ensures n.Crashed? ==> RestartStep(j, n).Crashed?
  {
  }

  lemma UnderwayNext(j: Job, acts: seq<Act>)
    requires j.leafCount > 0 && acts != []
    ensures var init := acts[..|acts| - 1];
            RestartsUnderway(j, acts) <==> RestartsUnderway(j, init) || (acts[|acts| - 1].Restart? && Underway(j, Taken(init)))
  {
    hide Underway, Taken;
    var init := acts[..|acts| - 1];
    assert forall k :: 0 <= k < |init| ==> init[..k] == acts[..k] && init[k] == acts[k];
  }

  /** The code writes no pieces to the store. So a node that is up panics at a restart if and only if some
      pieces are collected and some are missing. */
  lemma RestartPanics(j: Job, acts: seq<Act>)
    requires j.leafCount > 0 && NodeRun(j, false, acts).Up?
    ensures NodeRun(j, false, acts + [Restart]).Crashed? <==> Underway(j, Taken(acts))
  {
    hide InStepWith, Underway, RestartStep, BlockStep, RestartsUnderway;
    var more := acts + [Restart];
    assert more[..|acts|] == acts;
    NodeInStep(j, false, acts);
    NodeInStep(j, false, more);
    UnderwayNext(j, more);
  }

  /** For one: with the first of several pieces collected in a block, the next restart panics. */
  lemma FirstPieceStrands(sha: Bytes -> Bytes, pieces: seq<Bytes>, pieceSize: nat)
    requires Digests(sha) && |pieces| > 1 && FullSize(pieces, pieceSize)
    ensures var j := Job(sha, |pieces|, pieceSize, HashOf(sha, Shape(|pieces|), pieces));
            NodeRun(j, false, [Block([HonestOne(sha, pieces, 0)]), Restart]).Crashed?
  {
    hide InStepWith, RestartStep, BlockStep, Shape, HashOf, Digests, HonestOne, FullSize, RestartsUnderway, Submit, Tracks, Genuine;
    var j := Job(sha, |pieces|, pieceSize, HashOf(sha, Shape(|pieces|), pieces));
    var first, acts := [HonestOne(sha, pieces, 0)], [Block([HonestOne(sha, pieces, 0)])];
    HonestRunCollects(sha, pieces, pieceSize, 1);
    assert Honest(sha, pieces, 1) == first;
    assert acts[..0] == [] && Taken(acts) == first by {
      assert [] + first == first;
    }
    NodeInStep(j, false, acts);
    NoRestartYet(j, acts);
    RestartPanics(j, acts);
    assert acts + [Restart] == [Block(first), Restart];
  }

  lemma NoRestartYet(j: Job, acts: seq<Act>)
    requires j.leafCount > 0 && forall k :: 0 <= k < |acts| ==> acts[k].Block?
    ensures !RestartsUnderway(j, acts)
  {
  }

  /** What the node answers to a submission: the verdict, and the proof nodes that are reported. */
  ghost function Answer(j: Job, n: Node, x: Submission): (r: (bool, seq<HashNode>))
    requires NodeOk(j, n) && n.Up?
  {
    if n.tree.None? then (false, [])
    else
      var r := Submit(j.sha, j.leafCount, j.pieceSize, n.tree.value, x);
      (r.1, r.2)
  }

  /** If pieces were written to the store, no restart would panic. In any case a node that is up answers every
      submission like one that never stopped. */
  lemma RestartsAreInvisible(j: Job, writes: bool, acts: seq<Act>, x: Submission)
    requires j.leafCount > 0
    ensures writes ==> NodeRun(j, writes, acts).Up?
    ensures NodeRun(j, writes, acts).Up? ==>
              var r := Submit(j.sha, j.leafCount, j.pieceSize, LiveRun(j, Taken(acts)), x);
              Answer(j, NodeRun(j, writes, acts), x) == (r.1, r.2)
  {
    hide NodeRun, Run, Shape, Shadows, Persisted, Settle, RestartsUnderway;
    NodeInStep(j, writes, acts);
    var n, live := NodeRun(j, writes, acts), LiveRun(j, Taken(acts));
    if n.Up? && n.tree.Some? {
      AlikeStep(j.sha, j.leafCount, j.pieceSize, live, n.tree.value, x);
    }
  }
}
