/** Collecting raw data against a Merkle root, x/oracle/types/merkletree.go: what every run of
    `VerifyAndCacheOrdered` accepts. */
module MerkleCollect {
  import opened Common
  import opened OracleTx
  import opened Merkle

  /** The part of `MerkleTree` that changes. */
  datatype Tracker = Tracker(hashes: map<nat, Bytes>, pieces: seq<Bytes>)

  datatype Submission = Submission(index: nat, piece: Bytes, proof: seq<HashNode>)

  /** All pieces but the last must have the full size. */
  predicate SizeOk(leafCount: nat, pieceSize: nat, x: Submission) {
    leafCount > 1 && x.index < leafCount - 1 ==> |x.piece| == pieceSize
  }

  predicate Rooted(leafCount: nat, st: Tracker) {
    leafCount > 0 && Shape(leafCount).index in st.hashes
  }

  /** `VerifyAndCacheOrdered`: the new state, the verdict, and the proof nodes that are reported. */
  function Submit(
    sha: Bytes -> Bytes, leafCount: nat, pieceSize: nat, st: Tracker, x: Submission
  ): (r: (Tracker, bool, seq<HashNode>))
    requires Rooted(leafCount, st)
    ensures Rooted(leafCount, r.0)
  {
    if x.index >= leafCount || x.index != |st.pieces| || !SizeOk(leafCount, pieceSize, x) then (st, false, [])
    else
      match Settle(sha, Shape(leafCount), x.index, x.piece, x.proof, st.hashes)
      case None => (st, false, [])
      case Some(gain) => (Tracker(st.hashes + gain.kept, st.pieces + [x.piece]), true, gain.used)
  }

  // ------------------------------------------------------------------- invariants

  /** The root's hash is kept, and kept hashes come in closed ways. */
  ghost predicate Valid(leafCount: nat, st: Tracker) {
    Rooted(leafCount, st) && Closed(Shape(leafCount), st.hashes.Keys)
  }

  /** Everything collected so far is what the root stands for. */
  ghost predicate Genuine(sha: Bytes -> Bytes, pieces: seq<Bytes>, st: Tracker) {
    && Rooted(|pieces|, st)
    && TrueHashes(sha, Shape(|pieces|), pieces, st.hashes)
    && st.pieces <= pieces
  }

  lemma SubmitKeepsValid(sha: Bytes -> Bytes, leafCount: nat, pieceSize: nat, st: Tracker, x: Submission)
    requires Valid(leafCount, st)
    ensures Valid(leafCount, Submit(sha, leafCount, pieceSize, st, x).0)
  {
    var t := Shape(leafCount);
    if Submit(sha, leafCount, pieceSize, st, x).1 {
      ShapeOk(leafCount);
      SettleKeepsWay(sha, t, x.index, x.piece, x.proof, st.hashes);
      WayKeepsClosed(t, x.index, st.hashes.Keys);
    }
  }

  /** The submission does not hash anything to a hash of the tree that the tree does not. */
  ghost predicate FindsNoSecondPreimage(sha: Bytes -> Bytes, pieces: seq<Bytes>, st: Tracker, x: Submission)
    requires pieces != []
  {
    NoSecondPreimage(sha, Shape(|pieces|), pieces, x.index, x.piece, x.proof, st.hashes)
  }

  lemma SubmitKeepsGenuine(sha: Bytes -> Bytes, pieces: seq<Bytes>, pieceSize: nat, st: Tracker, x: Submission)
    requires Digests(sha) && pieces != [] && Genuine(sha, pieces, st) && FindsNoSecondPreimage(sha, pieces, st, x)
    ensures Genuine(sha, pieces, Submit(sha, |pieces|, pieceSize, st, x).0)
    ensures Submit(sha, |pieces|, pieceSize, st, x).1 ==> x.index == |st.pieces| < |pieces| && x.piece == pieces[x.index]
  {
    hide Shape, HashOf, TrueHashes, Settle, NoSecondPreimage;
    var t := Shape(|pieces|);
    if Submit(sha, |pieces|, pieceSize, st, x).1 {
      ShapeOk(|pieces|);
      SettleIsSound(sha, t, pieces, x.index, x.piece, x.proof, st.hashes);
      TrueTogether(sha, t, pieces, st.hashes, Settle(sha, t, x.index, x.piece, x.proof, st.hashes).value.kept);
    }
  }

  // ------------------------------------------------------------------------- runs

  /** `NewMT`: only the root's hash is known. */
  function Start(leafCount: nat, root: Bytes): (st: Tracker)
    requires leafCount > 0
  {
    Tracker(map[Shape(leafCount).index := root], [])
  }

  lemma {:induction false} OnlyRootIsClosed(t: Tree, kept: set<nat>)
    requires WellIndexed(t) && kept !! Indices(t) - {t.index}
    ensures Closed(t, kept)
  {
    if t.Inner? {
      RootIsNode(t.left);
      RootIsNode(t.right);
      OnlyRootIsClosed(t.left, kept);
      OnlyRootIsClosed(t.right, kept);
    }
  }

  lemma StartIsGenuine(sha: Bytes -> Bytes, pieces: seq<Bytes>)
    requires pieces != []
    ensures Genuine(sha, pieces, Start(|pieces|, HashOf(sha, Shape(|pieces|), pieces)))
  {
    hide Shape, HashOf, TrueHashes, Closed;
    ShapeOk(|pieces|);
    TrueAlone(sha, Shape(|pieces|), pieces);
    StartIsValid(|pieces|, HashOf(sha, Shape(|pieces|), pieces));
  }

  lemma StartIsValid(leafCount: nat, root: Bytes)
    requires leafCount > 0
    ensures Valid(leafCount, Start(leafCount, root))
  {
    hide Shape, Closed;
    ShapeOk(leafCount);
    var kept := {Shape(leafCount).index};
    OnlyRootIsClosed(Shape(leafCount), kept);
    assert Start(leafCount, root).hashes.Keys == kept;
  }

  ghost function Run(sha: Bytes -> Bytes, leafCount: nat, pieceSize: nat, root: Bytes, xs: seq<Submission>): (st: Tracker)
    requires leafCount > 0
    ensures Valid(leafCount, st)
  {
    if xs == [] then StartIsValid(leafCount, root); Start(leafCount, root)
    else
      var st := Run(sha, leafCount, pieceSize, root, xs[..|xs| - 1]);
      SubmitKeepsValid(sha, leafCount, pieceSize, st, xs[|xs| - 1]);
      Submit(sha, leafCount, pieceSize, st, xs[|xs| - 1]).0
  }

  /** Whatever the root commits to, every run collects at most as many pieces as there are leaves, and all
      of them but the last have the full size. */
  lemma {:induction false} CollectedSizes(sha: Bytes -> Bytes, leafCount: nat, pieceSize: nat, root: Bytes, xs: seq<Submission>)
    requires leafCount > 0
    ensures var ps := Run(sha, leafCount, pieceSize, root, xs).pieces;
            |ps| <= leafCount && forall k :: 0 <= k < |ps| && k + 1 < leafCount ==> |ps[k]| == pieceSize
  {
    if xs != [] {
      hide Valid, Settle, Shape;
      CollectedSizes(sha, leafCount, pieceSize, root, xs[..|xs| - 1]);
    }
  }

  /** No submission of the run finds a second preimage of a hash in the tree. */
  ghost predicate CleanRun(sha: Bytes -> Bytes, pieces: seq<Bytes>, pieceSize: nat, xs: seq<Submission>)
    requires pieces != []
  {
    forall k :: 0 <= k < |xs| ==>
      FindsNoSecondPreimage(sha, pieces, Run(sha, |pieces|, pieceSize, HashOf(sha, Shape(|pieces|), pieces), xs[..k]), xs[k])
  }

  /** Whatever is submitted in whatever order, the pieces collected against the root of a tree are
      the pieces of that tree from the first on, unless a second preimage is found. */
  lemma {:induction false} OnlyGenuinePieces(sha: Bytes -> Bytes, pieces: seq<Bytes>, pieceSize: nat, xs: seq<Submission>)
    requires Digests(sha) && pieces != [] && CleanRun(sha, pieces, pieceSize, xs)
    ensures Genuine(sha, pieces, Run(sha, |pieces|, pieceSize, HashOf(sha, Shape(|pieces|), pieces), xs))
  {
    hide Genuine, HashOf, Shape, Digests, FindsNoSecondPreimage, Submit;
    if xs == [] {
      StartIsGenuine(sha, pieces);
    } else {
      var init, last := xs[..|xs| - 1], xs[|xs| - 1];
      assert forall k :: 0 <= k < |init| ==> init[..k] == xs[..k] && init[k] == xs[k];
      OnlyGenuinePieces(sha, pieces, pieceSize, init);
      SubmitKeepsGenuine(sha, pieces, pieceSize, Run(sha, |pieces|, pieceSize, HashOf(sha, Shape(|pieces|), pieces), init), last);
    }
  }

  // --------------------------------------------------------------------- raw data

  /** The pieces `DeriveMT` cuts raw data into. */
  function Cut(raw: Bytes, pieceSize: nat): (pieces: seq<Bytes>)
    requires pieceSize > 0 && raw != []
    ensures pieces != []
    decreases |raw|
  {
    if |raw| <= pieceSize then [raw] else [raw[..pieceSize]] + Cut(raw[pieceSize..], pieceSize)
  }

  function Concat(pieces: seq<Bytes>): (raw: Bytes) {
    if pieces == [] then [] else pieces[0] + Concat(pieces[1..])
  }

  lemma {:induction false} ConcatOfCut(raw: Bytes, pieceSize: nat)
    requires pieceSize > 0 && raw != []
    ensures Concat(Cut(raw, pieceSize)) == raw
    ensures forall k :: 0 <= k < |Cut(raw, pieceSize)| - 1 ==> |Cut(raw, pieceSize)[k]| == pieceSize
    decreases |raw|
  {
    var ps := Cut(raw, pieceSize);
    if |raw| > pieceSize {
      ConcatOfCut(raw[pieceSize..], pieceSize);
      assert ps[1..] == Cut(raw[pieceSize..], pieceSize);
      assert raw == raw[..pieceSize] + raw[pieceSize..];
      forall k | 0 <= k < |ps| - 1
        ensures |ps[k]| == pieceSize
      {
        if k > 0 {
          assert ps[k] == Cut(raw[pieceSize..], pieceSize)[k - 1];
        }
      }
    } else {
      assert ps[1..] == [];
    }
  }

  /** The root that commits to raw data. */
  function RootOf(sha: Bytes -> Bytes, raw: Bytes, pieceSize: nat): (root: Bytes)
    requires pieceSize > 0 && raw != []
  {
    HashOf(sha, Shape(|Cut(raw, pieceSize)|), Cut(raw, pieceSize))
  }

  /** Data collected to the end against a root is the data the root commits to. */
  lemma CollectedDataIsGenuine(sha: Bytes -> Bytes, raw: Bytes, pieceSize: nat, xs: seq<Submission>)
    requires Digests(sha) && pieceSize > 0 && raw != [] && CleanRun(sha, Cut(raw, pieceSize), pieceSize, xs)
    ensures var n := |Cut(raw, pieceSize)|;
            var st := Run(sha, n, pieceSize, RootOf(sha, raw, pieceSize), xs);
            |st.pieces| <= n && (|st.pieces| == n ==> Concat(st.pieces) == raw)
  {
    hide Run, HashOf, Shape, Rooted, TrueHashes, Cut, Concat, CleanRun, Digests;
    OnlyGenuinePieces(sha, Cut(raw, pieceSize), pieceSize, xs);
    ConcatOfCut(raw, pieceSize);
    var st := Run(sha, |Cut(raw, pieceSize)|, pieceSize, RootOf(sha, raw, pieceSize), xs);
    assert st.pieces <= Cut(raw, pieceSize);
    assert |st.pieces| == |Cut(raw, pieceSize)| ==> st.pieces == Cut(raw, pieceSize);
  }

  // ---------------------------------------------------------------- honest proofs

  /** Every sibling on the way has its true hash, kept or in the proof. */
  ghost predicate Supplied(
    sha: Bytes -> Bytes, t: Tree, pieces: seq<Bytes>, i: nat, proof: seq<HashNode>, hashes: map<nat, Bytes>
  )
  {
    t.Inner? ==>
      && PairHash(Aside(t, i), proof, hashes) == Some(HashOf(sha, Aside(t, i), pieces))
      && Supplied(sha, Toward(t, i), pieces, i, proof, hashes)
  }

  lemma {:induction false} SuppliedClimb(
    sha: Bytes -> Bytes, t: Tree, pieces: seq<Bytes>, i: nat, proof: seq<HashNode>, hashes: map<nat, Bytes>
  )
    requires i in LeafSet(t) && i < |pieces| && Supplied(sha, t, pieces, i, proof, hashes)
    ensures ClimbTo(sha, t, i, pieces[i], proof, hashes).At?
    ensures ClimbTo(sha, t, i, pieces[i], proof, hashes).hash == HashOf(sha, t, pieces)
    ensures NoSecondPreimage(sha, t, pieces, i, pieces[i], proof, hashes)
  {
    if t.Inner? {
      SuppliedClimb(sha, Toward(t, i), pieces, i, proof, hashes);
    }
  }

  lemma {:induction false} SuppliedSettles(
    sha: Bytes -> Bytes, t: Tree, pieces: seq<Bytes>, i: nat, proof: seq<HashNode>, hashes: map<nat, Bytes>
  )
    requires i in LeafSet(t) && i < |pieces| && Supplied(sha, t, pieces, i, proof, hashes)
    requires Known(t, i, hashes.Keys) && TrueHashes(sha, t, pieces, hashes)
    ensures Settle(sha, t, i, pieces[i], proof, hashes).Some?
  {
    if t.Inner? {
      SuppliedClimb(sha, t, pieces, i, proof, hashes);
      if Known(Toward(t, i), i, hashes.Keys) {
        SuppliedSettles(sha, Toward(t, i), pieces, i, proof, hashes);
      }
    }
  }

  /** `ProofPathFromLeafIndex`: the siblings on the way from leaf `i` up. */
  function ProofPath(t: Tree, i: nat): (path: seq<nat>) {
    if t.Leaf? then [] else ProofPath(Toward(t, i), i) + [Aside(t, i).index]
  }

  /** What `calculateProofPaths` has marked after the first `n` leaves: all ways up, with siblings. */
  function Seen(t: Tree, n: nat): (s: set<nat>) {
    if n == 0 then {} else Seen(t, n - 1) + WayTo(t, n - 1) + {t.index}
  }

  function Unseen(path: seq<nat>, seen: set<nat>): (r: seq<nat>)
    ensures forall x :: x in r <==> x in path && x !in seen
  {
    if path == [] then []
    else if path[0] in seen then Unseen(path[1..], seen)
    else [path[0]] + Unseen(path[1..], seen)
  }

  /** `MinimalProofPathByIndex`: the siblings that earlier leaves have not brought in. */
  function MinimalPath(t: Tree, i: nat): (path: seq<nat>) {
    Unseen(ProofPath(t, i), Seen(t, i))
  }

  function ProofFor(sha: Bytes -> Bytes, t: Tree, pieces: seq<Bytes>, path: seq<nat>): (proof: seq<HashNode>) {
    if path == [] then []
    else [HashNode(path[0], HashOf(sha, NodeAt(t, path[0]), pieces))] + ProofFor(sha, t, pieces, path[1..])
  }

  /** `MinimalProofByIndex` on the tree of the data itself. */
  function MinimalProof(sha: Bytes -> Bytes, t: Tree, pieces: seq<Bytes>, i: nat): (proof: seq<HashNode>) {
    ProofFor(sha, t, pieces, MinimalPath(t, i))
  }

  lemma {:induction false} LookupInProof(sha: Bytes -> Bytes, t: Tree, pieces: seq<Bytes>, path: seq<nat>, x: nat)
    requires x in path && HashOf(sha, NodeAt(t, x), pieces) != []
    ensures Lookup(ProofFor(sha, t, pieces, path), x) == Some(HashOf(sha, NodeAt(t, x), pieces))
  {
    var proof := ProofFor(sha, t, pieces, path);
    assert proof[1..] == ProofFor(sha, t, pieces, path[1..]);
    if path[0] != x {
      LookupInProof(sha, t, pieces, path[1..], x);
    }
  }

  /** `u` is a part of `t` that can be found in it by its indices. */
  ghost predicate PartOf(u: Tree, t: Tree) {
    Indices(u) <= Indices(t) && forall x :: x in Indices(u) ==> NodeAt(t, x) == NodeAt(u, x)
  }

  lemma PartOfPart(u: Tree, t: Tree)
    requires u.Inner? && WellIndexed(u) && PartOf(u, t)
    ensures PartOf(u.left, t) && PartOf(u.right, t)
    ensures NodeAt(t, u.left.index) == u.left && NodeAt(t, u.right.index) == u.right
  {
    RootIsNode(u.left);
    RootIsNode(u.right);
    forall x | x in Indices(u.left)
      ensures NodeAt(t, x) == NodeAt(u.left, x)
    {
      assert x in Indices(u) && NodeAt(u, x) == NodeAt(u.left, x);
    }
    forall x | x in Indices(u.right)
      ensures NodeAt(t, x) == NodeAt(u.right, x)
    {
      assert x in Indices(u) && NodeAt(u, x) == NodeAt(u.right, x);
    }
  }

  /** A proof that has the hash of every sibling on the way that is not kept supplies them all. */
  lemma {:induction false} PathSupplies(
    sha: Bytes -> Bytes, t: Tree, u: Tree, pieces: seq<Bytes>, i: nat, path: seq<nat>, hashes: map<nat, Bytes>
  )
    requires Digests(sha) && WellIndexed(u) && PartOf(u, t) && forall k :: k in LeafSet(u) ==> k < |pieces|
    requires TrueHashes(sha, u, pieces, hashes)
    requires forall x :: x in ProofPath(u, i) && x !in hashes ==> x in path
    ensures Supplied(sha, u, pieces, i, ProofFor(sha, t, pieces, path), hashes)
  {
    if u.Inner? {
      hide NodeAt, HashOf, Digests;
      var pair := Aside(u, i);
      assert pair.index in ProofPath(u, i);
      assert LeafSet(pair) <= LeafSet(u) && LeafSet(Toward(u, i)) <= LeafSet(u);
      PartOfPart(u, t);
      HashLength(sha, pair, pieces);
      if pair.index !in hashes {
        LookupInProof(sha, t, pieces, path, pair.index);
      }
      PathSupplies(sha, t, Toward(u, i), pieces, i, path, hashes);
    }
  }

  /** The submissions of an honest run: the pieces in order, each with its minimal proof. */
  ghost function Honest(sha: Bytes -> Bytes, pieces: seq<Bytes>, n: nat): (xs: seq<Submission>)
    requires n <= |pieces| && pieces != []
    ensures |xs| == n
  {
    seq(n, k requires 0 <= k < n => HonestOne(sha, pieces, k))
  }

  ghost predicate FullSize(pieces: seq<Bytes>, pieceSize: nat) {
    forall k :: 0 <= k < |pieces| - 1 ==> |pieces[k]| == pieceSize
  }

  /** Exactly the hashes that `calculateProofPaths` counts on are kept. */
  ghost predicate Tracks(leafCount: nat, st: Tracker) {
    && Valid(leafCount, st) && |st.pieces| <= leafCount
    && st.hashes.Keys == Seen(Shape(leafCount), |st.pieces|) + {Shape(leafCount).index}
  }

  lemma SubmitTracks(sha: Bytes -> Bytes, leafCount: nat, pieceSize: nat, st: Tracker, x: Submission)
    requires Tracks(leafCount, st)
    ensures Tracks(leafCount, Submit(sha, leafCount, pieceSize, st, x).0)
  {
    hide Shape, Settle, Closed;
    SubmitKeepsValid(sha, leafCount, pieceSize, st, x);
    ShapeOk(leafCount);
    if Submit(sha, leafCount, pieceSize, st, x).1 {
      SettleKeepsWay(sha, Shape(leafCount), x.index, x.piece, x.proof, st.hashes);
    }
  }

  /** In every run, whatever is submitted and whatever the hash function, the kept hashes are
      those the minimal proofs count on. */
  lemma {:induction false} RunTracks(
    sha: Bytes -> Bytes, leafCount: nat, pieceSize: nat, root: Bytes, xs: seq<Submission>
  )
    requires leafCount > 0
    ensures Tracks(leafCount, Run(sha, leafCount, pieceSize, root, xs))
  {
    hide Shape, Closed;
    if xs == [] {
      StartIsValid(leafCount, root);
    } else {
      RunTracks(sha, leafCount, pieceSize, root, xs[..|xs| - 1]);
      SubmitTracks(sha, leafCount, pieceSize, Run(sha, leafCount, pieceSize, root, xs[..|xs| - 1]), xs[|xs| - 1]);
    }
  }

  /** `n` pieces are collected, and they and all kept hashes are genuine. */
  ghost predicate InStep(sha: Bytes -> Bytes, pieces: seq<Bytes>, st: Tracker, n: nat)
    requires pieces != []
  {
    Tracks(|pieces|, st) && Genuine(sha, pieces, st) && |st.pieces| == n
  }

  /** The submission of piece `n` with its minimal proof. */
  function HonestOne(sha: Bytes -> Bytes, pieces: seq<Bytes>, n: nat): (x: Submission)
    requires n < |pieces|
  {
    Submission(n, pieces[n], MinimalProof(sha, Shape(|pieces|), pieces, n))
  }

  lemma HonestStep(sha: Bytes -> Bytes, pieces: seq<Bytes>, pieceSize: nat, st: Tracker, n: nat)
    requires Digests(sha) && n < |pieces| && FullSize(pieces, pieceSize) && InStep(sha, pieces, st, n)
    ensures Submit(sha, |pieces|, pieceSize, st, HonestOne(sha, pieces, n)).1
    ensures InStep(sha, pieces, Submit(sha, |pieces|, pieceSize, st, HonestOne(sha, pieces, n)).0, n + 1)
  {
    hide Shape, HashOf, TrueHashes, ProofFor, NodeAt, ProofPath, Closed;
    var t := Shape(|pieces|);
    var x := HonestOne(sha, pieces, n);
    ShapeOk(|pieces|);
    PathSupplies(sha, t, t, pieces, n, MinimalPath(t, n), st.hashes);
    SuppliedSettles(sha, t, pieces, n, x.proof, st.hashes);
    SuppliedClimb(sha, t, pieces, n, x.proof, st.hashes);
    SubmitKeepsGenuine(sha, pieces, pieceSize, st, x);
    SubmitTracks(sha, |pieces|, pieceSize, st, x);
  }

  /** Minimal proofs suffice: submitting the pieces in order with them collects every piece. */
  lemma {:induction false} HonestRunCollects(sha: Bytes -> Bytes, pieces: seq<Bytes>, pieceSize: nat, n: nat)
    requires Digests(sha) && pieces != [] && n <= |pieces| && FullSize(pieces, pieceSize)
    ensures InStep(sha, pieces, Run(sha, |pieces|, pieceSize, HashOf(sha, Shape(|pieces|), pieces), Honest(sha, pieces, n)), n)
  {
    hide Shape, HashOf, Submit, Genuine, HonestOne, Digests, Tracks;
    if n == 0 {
      StartIsGenuine(sha, pieces);
      RunTracks(sha, |pieces|, pieceSize, HashOf(sha, Shape(|pieces|), pieces), []);
    } else {
      HonestRunCollects(sha, pieces, pieceSize, n - 1);
      var xs := Honest(sha, pieces, n);
      assert xs[..n - 1] == Honest(sha, pieces, n - 1);
      HonestStep(sha, pieces, pieceSize, Run(sha, |pieces|, pieceSize, HashOf(sha, Shape(|pieces|), pieces), xs[..n - 1]), n - 1);
    }
  }

  /** The data a root commits to can be collected. */
  lemma HonestDataIsCollected(sha: Bytes -> Bytes, raw: Bytes, pieceSize: nat)
    requires Digests(sha) && pieceSize > 0 && raw != []
    ensures var pieces := Cut(raw, pieceSize);
            var st := Run(sha, |pieces|, pieceSize, RootOf(sha, raw, pieceSize), Honest(sha, pieces, |pieces|));
            st.pieces == pieces && Concat(st.pieces) == raw
  {
    hide Shape, HashOf, Cut, Run, Honest, Digests, Concat, Rooted, Tracks, TrueHashes;
    ConcatOfCut(raw, pieceSize);
    HonestRunCollects(sha, Cut(raw, pieceSize), pieceSize, |Cut(raw, pieceSize)|);
  }

  /** Whatever else was submitted before, the next piece with its minimal proof is accepted. */
  lemma NextPieceIsAccepted(sha: Bytes -> Bytes, pieces: seq<Bytes>, pieceSize: nat, xs: seq<Submission>)
    requires Digests(sha) && pieces != [] && FullSize(pieces, pieceSize) && CleanRun(sha, pieces, pieceSize, xs)
    ensures var st := Run(sha, |pieces|, pieceSize, HashOf(sha, Shape(|pieces|), pieces), xs);
            |st.pieces| < |pieces| ==> Submit(sha, |pieces|, pieceSize, st, HonestOne(sha, pieces, |st.pieces|)).1
  {
    hide Shape, HashOf, Submit, Genuine, HonestOne, Digests, Tracks, CleanRun, Run;
    var root := HashOf(sha, Shape(|pieces|), pieces);
    var st := Run(sha, |pieces|, pieceSize, root, xs);
    OnlyGenuinePieces(sha, pieces, pieceSize, xs);
    RunTracks(sha, |pieces|, pieceSize, root, xs);
    if |st.pieces| < |pieces| {
      HonestStep(sha, pieces, pieceSize, st, |st.pieces|);
    }
  }

  /** How many honest submissions a run contains, in order and from the first on, among any others. */
  function HonestCount(sha: Bytes -> Bytes, pieces: seq<Bytes>, xs: seq<Submission>): (n: nat)
    requires pieces != []
    ensures n <= |pieces|
  {
    if xs == [] then 0
    else
      var n := HonestCount(sha, pieces, xs[..|xs| - 1]);
      if n < |pieces| && xs[|xs| - 1] == HonestOne(sha, pieces, n) then n + 1 else n
  }

  lemma SubmitGrows(sha: Bytes -> Bytes, leafCount: nat, pieceSize: nat, st: Tracker, x: Submission)
    requires Rooted(leafCount, st)
    ensures var r := Submit(sha, leafCount, pieceSize, st, x);
            |r.0.pieces| == |st.pieces| + if r.1 then 1 else 0
  {
    hide Shape, Settle;
  }

  lemma CleanPrefix(sha: Bytes -> Bytes, pieces: seq<Bytes>, pieceSize: nat, xs: seq<Submission>)
    requires pieces != [] && xs != [] && CleanRun(sha, pieces, pieceSize, xs)
    ensures CleanRun(sha, pieces, pieceSize, xs[..|xs| - 1])
  {
    hide Run, HashOf, Shape, FindsNoSecondPreimage;
    var init := xs[..|xs| - 1];
    assert forall k :: 0 <= k < |init| ==> init[..k] == xs[..k] && init[k] == xs[k];
  }

  /** One submission more: if it is the next honest one it is accepted, or its piece is there already. */
  lemma HonestCountStep(sha: Bytes -> Bytes, pieces: seq<Bytes>, pieceSize: nat, st: Tracker, x: Submission, n: nat)
    requires n < |pieces| && Rooted(|pieces|, st) && n <= |st.pieces|
    requires |st.pieces| < |pieces| ==> Submit(sha, |pieces|, pieceSize, st, HonestOne(sha, pieces, |st.pieces|)).1
    ensures (if x == HonestOne(sha, pieces, n) then n + 1 else n) <= |Submit(sha, |pieces|, pieceSize, st, x).0.pieces|
  {
    hide Submit, HonestOne, Rooted;
    SubmitGrows(sha, |pieces|, pieceSize, st, x);
  }

  lemma {:induction false} HonestCountIsCollected(
    sha: Bytes -> Bytes, pieces: seq<Bytes>, pieceSize: nat, xs: seq<Submission>
  )
    requires Digests(sha) && pieces != [] && FullSize(pieces, pieceSize) && CleanRun(sha, pieces, pieceSize, xs)
    ensures HonestCount(sha, pieces, xs)
         <= |Run(sha, |pieces|, pieceSize, HashOf(sha, Shape(|pieces|), pieces), xs).pieces|
  {
    hide Shape, HashOf, HonestOne, Digests, Submit, CleanRun, Rooted;
    if xs != [] {
      var init, x := xs[..|xs| - 1], xs[|xs| - 1];
      var st := Run(sha, |pieces|, pieceSize, HashOf(sha, Shape(|pieces|), pieces), init);
      CleanPrefix(sha, pieces, pieceSize, xs);
      HonestCountIsCollected(sha, pieces, pieceSize, init);
      NextPieceIsAccepted(sha, pieces, pieceSize, init);
      SubmitGrows(sha, |pieces|, pieceSize, st, x);
      var n := HonestCount(sha, pieces, init);
      if n < |pieces| {
        HonestCountStep(sha, pieces, pieceSize, st, x, n);
      }
    }
  }

  /** The data a root commits to is collected by every run that contains the honest submissions in
      order, whatever others come between them. */
  lemma DataIsCollected(sha: Bytes -> Bytes, raw: Bytes, pieceSize: nat, xs: seq<Submission>)
    requires Digests(sha) && pieceSize > 0 && raw != [] && CleanRun(sha, Cut(raw, pieceSize), pieceSize, xs)
    requires HonestCount(sha, Cut(raw, pieceSize), xs) == |Cut(raw, pieceSize)|
    ensures var st := Run(sha, |Cut(raw, pieceSize)|, pieceSize, RootOf(sha, raw, pieceSize), xs);
            st.pieces == Cut(raw, pieceSize) && Concat(st.pieces) == raw
  {
    hide Shape, HashOf, Cut, Run, HonestCount, Digests, Concat, Rooted, TrueHashes, CleanRun;
    ConcatOfCut(raw, pieceSize);
    HonestCountIsCollected(sha, Cut(raw, pieceSize), pieceSize, xs);
    OnlyGenuinePieces(sha, Cut(raw, pieceSize), pieceSize, xs);
  }

  // ------------------------------------------------------------------- minimality

  /** A sibling's hash that is neither kept nor in the proof stops a climb. */
  lemma {:induction false} StuckWithout(
    sha: Bytes -> Bytes, t: Tree, i: nat, piece: Bytes, proof: seq<HashNode>, hashes: map<nat, Bytes>, missing: nat
  )
    requires missing in ProofPath(t, i) && missing !in hashes && Lookup(proof, missing).None?
    ensures ClimbTo(sha, t, i, piece, proof, hashes).Stuck?
  {
    if missing != Aside(t, i).index {
      StuckWithout(sha, Toward(t, i), i, piece, proof, hashes, missing);
    }
  }

  lemma {:induction false} RejectedWithout(
    sha: Bytes -> Bytes, t: Tree, i: nat, piece: Bytes, proof: seq<HashNode>, hashes: map<nat, Bytes>, missing: nat
  )
    requires Closed(t, hashes.Keys) && t.index in hashes
    requires missing in ProofPath(t, i) && missing !in hashes && Lookup(proof, missing).None?
    ensures Settle(sha, t, i, piece, proof, hashes).None?
  {
    KnownIfClosed(Toward(t, i), i, hashes.Keys);
    if Toward(t, i).index in hashes {
      RejectedWithout(sha, Toward(t, i), i, piece, proof, hashes, missing);
    } else {
      StuckWithout(sha, t, i, piece, proof, hashes, missing);
    }
  }

  lemma {:induction false} PathAvoidsRoot(t: Tree, i: nat)
    requires WellIndexed(t)
    ensures t.index !in ProofPath(t, i) && forall x :: x in ProofPath(t, i) ==> x in Indices(t)
  {
    if t.Inner? {
      RootIsNode(Aside(t, i));
      PathAvoidsRoot(Toward(t, i), i);
    }
  }

  /** Minimal proofs are minimal: in any run, a submission whose proof lacks one of their nodes is rejected. */
  lemma MinimalProofIsNeeded(
    sha: Bytes -> Bytes, leafCount: nat, pieceSize: nat, root: Bytes, xs: seq<Submission>, x: Submission, missing: nat
  )
    requires leafCount > 0
    requires missing in MinimalPath(Shape(leafCount), x.index) && Lookup(x.proof, missing).None?
    ensures !Submit(sha, leafCount, pieceSize, Run(sha, leafCount, pieceSize, root, xs), x).1
  {
    hide Shape, Settle, Closed, ProofPath, Seen, Run;
    var t, st := Shape(leafCount), Run(sha, leafCount, pieceSize, root, xs);
    ShapeOk(leafCount);
    RunTracks(sha, leafCount, pieceSize, root, xs);
    if x.index == |st.pieces| {
      PathAvoidsRoot(t, x.index);
      RejectedWithout(sha, t, x.index, x.piece, x.proof, st.hashes, missing);
    }
  }
}
