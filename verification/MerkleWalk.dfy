/** `MerkleTree` of x/oracle/types/merkletree.go as an object: the walks along parent pointers. */
module MerkleWalk {
  import opened Common
  import opened OracleTx
  import opened Merkle
  import opened MerkleCollect

  /** The nodes from leaf `i` up to the root, which the source reaches by parent pointers. */
  function Spine(t: Tree, i: nat): (s: seq<Tree>)
    ensures s != [] && s[|s| - 1] == t
  {
    if t.Leaf? then [t] else Spine(Toward(t, i), i) + [t]
  }

  lemma {:induction false} SpineStep(t: Tree, i: nat, k: nat)
    requires k + 1 < |Spine(t, i)|
    ensures Spine(t, i)[k + 1].Inner? && Toward(Spine(t, i)[k + 1], i) == Spine(t, i)[k]
    decreases t
  {
    if t.Inner? && k + 1 < |Spine(t, i)| - 1 {
      SpineStep(Toward(t, i), i, k);
    }
  }

  lemma {:induction false} SpineStart(t: Tree, i: nat)
    requires i in LeafSet(t)
    ensures Spine(t, i)[0] == Leaf(i)
    decreases t
  {
    if t.Inner? {
      SpineStart(Toward(t, i), i);
    }
  }

  lemma {:induction false} NothingKnown(t: Tree, i: nat, kept: set<nat>)
    requires forall m :: 0 <= m < |Spine(t, i)| ==> Spine(t, i)[m].index !in kept
    ensures !Known(t, i, kept)
  {
    if t.Inner? {
      var s := Spine(Toward(t, i), i);
      assert forall m :: 0 <= m < |s| ==> s[m] == Spine(t, i)[m];
      NothingKnown(Toward(t, i), i, kept);
    }
    assert Spine(t, i)[|Spine(t, i)| - 1].index !in kept;
  }

  /** The check happens at the first node on the way up whose hash is kept. */
  lemma {:induction false} SettleAtLowest(
    sha: Bytes -> Bytes, t: Tree, i: nat, piece: Bytes, proof: seq<HashNode>, hashes: map<nat, Bytes>, k: nat
  )
    requires k < |Spine(t, i)| && Spine(t, i)[k].index in hashes
    requires forall m :: 0 <= m < k ==> Spine(t, i)[m].index !in hashes
    ensures Known(t, i, hashes.Keys)
    ensures Settle(sha, t, i, piece, proof, hashes) == Settle(sha, Spine(t, i)[k], i, piece, proof, hashes)
    decreases t
  {
    if t.Inner? {
      var s := Spine(Toward(t, i), i);
      if k < |s| {
        assert forall m :: 0 <= m < |s| ==> s[m] == Spine(t, i)[m];
        SettleAtLowest(sha, Toward(t, i), i, piece, proof, hashes, k);
      }
    }
  }

  lemma ClimbStart(sha: Bytes -> Bytes, i: nat, piece: Bytes, proof: seq<HashNode>, hashes: map<nat, Bytes>)
    ensures ClimbTo(sha, Leaf(i), i, piece, proof, hashes) == At(sha(piece), map[], [HashNode(i, sha(piece))])
  {
  }

  lemma ClimbStep(
    sha: Bytes -> Bytes, t: Tree, i: nat, piece: Bytes, proof: seq<HashNode>, hashes: map<nat, Bytes>, c: Climb
  )
    requires t.Inner? && c.At? && ClimbTo(sha, Toward(t, i), i, piece, proof, hashes) == c
    ensures var pair := Aside(t, i);
            var pairHash := PairHash(pair, proof, hashes);
            ClimbTo(sha, t, i, piece, proof, hashes) ==
            if pairHash.None? then Stuck
            else if pair.index in hashes
            then At(sha(Preimage(t, i, c.hash, pairHash.value)), c.kept[Toward(t, i).index := c.hash], c.used)
            else At(sha(Preimage(t, i, c.hash, pairHash.value)),
                    c.kept[Toward(t, i).index := c.hash][pair.index := pairHash.value],
                    c.used + [HashNode(pair.index, pairHash.value)])
  {
    hide PairHash, Preimage, LeafSet;
    var m := c.kept[Toward(t, i).index := c.hash];
    assert m + map[] == m;
  }

  lemma SettleAtLeaf(sha: Bytes -> Bytes, i: nat, piece: Bytes, proof: seq<HashNode>, hashes: map<nat, Bytes>)
    requires i in hashes
    ensures Settle(sha, Leaf(i), i, piece, proof, hashes)
         == if hashes[i] == sha(piece) then Some(Gain(map[], [])) else None
  {
  }

  lemma SettleHere(sha: Bytes -> Bytes, t: Tree, i: nat, piece: Bytes, proof: seq<HashNode>, hashes: map<nat, Bytes>)
    requires t.Inner? && t.index in hashes && !Known(Toward(t, i), i, hashes.Keys)
    ensures var c := ClimbTo(sha, t, i, piece, proof, hashes);
            Settle(sha, t, i, piece, proof, hashes) ==
            if c.At? && c.hash == hashes[t.index] then Some(Gain(c.kept, c.used)) else None
  {
  }

  /** A climb that is stuck somewhere is stuck from there on up. */
  lemma {:induction false} StuckAbove(
    sha: Bytes -> Bytes, t: Tree, i: nat, piece: Bytes, proof: seq<HashNode>, hashes: map<nat, Bytes>, k: nat
  )
    requires k < |Spine(t, i)| && ClimbTo(sha, Spine(t, i)[k], i, piece, proof, hashes).Stuck?
    requires Known(t, i, hashes.Keys) && forall m :: 0 <= m < k ==> Spine(t, i)[m].index !in hashes
    ensures Settle(sha, t, i, piece, proof, hashes).None?
    decreases t
  {
    if t.Inner? {
      var s := Spine(Toward(t, i), i);
      assert forall m :: 0 <= m < |s| ==> s[m] == Spine(t, i)[m];
      if k == |s| {
        NothingKnown(Toward(t, i), i, hashes.Keys);
      } else if Known(Toward(t, i), i, hashes.Keys) {
        StuckAbove(sha, Toward(t, i), i, piece, proof, hashes, k);
      } else {
        StuckUp(sha, Toward(t, i), i, piece, proof, hashes, k);
      }
    }
  }

  lemma {:induction false} StuckUp(
    sha: Bytes -> Bytes, t: Tree, i: nat, piece: Bytes, proof: seq<HashNode>, hashes: map<nat, Bytes>, k: nat
  )
    requires k < |Spine(t, i)| && ClimbTo(sha, Spine(t, i)[k], i, piece, proof, hashes).Stuck?
    ensures ClimbTo(sha, t, i, piece, proof, hashes).Stuck?
    decreases t
  {
    if t.Inner? && k < |Spine(t, i)| - 1 {
      assert Spine(Toward(t, i), i)[k] == Spine(t, i)[k];
      StuckUp(sha, Toward(t, i), i, piece, proof, hashes, k);
    }
  }

  // ------------------------------------------------------------------ proof paths

  /** The indices on the way from leaf `i`, siblings and computed nodes, bottom up. */
  function FullPath(t: Tree, i: nat): (path: seq<nat>) {
    if t.Leaf? then [t.index] else FullPath(Toward(t, i), i) + [Aside(t, i).index, t.index]
  }

  function PathOf(t: Tree, i: nat, withCalculatedNodes: bool): (path: seq<nat>) {
    if withCalculatedNodes then FullPath(t, i) else ProofPath(t, i)
  }

  lemma {:induction false} PathOnSpine(t: Tree, i: nat, k: nat, withCalculatedNodes: bool)
    requires k + 1 < |Spine(t, i)|
    ensures Spine(t, i)[k + 1].Inner?
    ensures PathOf(Spine(t, i)[k + 1], i, withCalculatedNodes)
         == PathOf(Spine(t, i)[k], i, withCalculatedNodes) + [Aside(Spine(t, i)[k + 1], i).index]
            + if withCalculatedNodes then [Spine(t, i)[k + 1].index] else []
  {
    SpineStep(t, i, k);
  }

  /** `ProofPathFromLeafIndex`: nothing for an index beyond the leaves. */
  method ProofPathFromLeafIndex(leafCount: nat, index: nat, withCalculatedNodes: bool) returns (path: seq<nat>)
    ensures path == if index < leafCount then PathOf(Shape(leafCount), index, withCalculatedNodes) else []
  {
    if index >= leafCount {
      return [];
    }
    hide Spine, Shape;
    var t := Shape(leafCount);
    ShapeOk(leafCount);
    var spine := Spine(t, index);
    SpineStart(t, index);
    path := if withCalculatedNodes then [index] else [];
    var k := 0;
    while k + 1 < |spine|
      invariant k < |spine|
      invariant path == PathOf(spine[k], index, withCalculatedNodes)
    {
      PathOnSpine(t, index, k, withCalculatedNodes);
      path := path + [Aside(spine[k + 1], index).index];
      if withCalculatedNodes {
        path := path + [spine[k + 1].index];
      }
      k := k + 1;
    }
  }

  lemma {:induction false} FullPathIsWay(t: Tree, i: nat, x: nat)
    ensures x in FullPath(t, i) <==> x in WayTo(t, i) || x == t.index
  {
    if t.Inner? {
      FullPathIsWay(Toward(t, i), i, x);
    }
  }

  /** The siblings on a way are distinct, and neither the root nor the leaf it starts from. */
  lemma {:induction false} SiblingsDiffer(t: Tree, i: nat)
    requires WellIndexed(t) && i in LeafSet(t)
    ensures i in Indices(t) && forall x :: x in ProofPath(t, i) ==> x in Indices(t) && x != t.index && x != i
    ensures forall j, k :: 0 <= j < k < |ProofPath(t, i)| ==> ProofPath(t, i)[j] != ProofPath(t, i)[k]
  {
    if t.Inner? {
      RootIsNode(Aside(t, i));
      SiblingsDiffer(Toward(t, i), i);
    }
  }

  lemma {:induction false} UnseenPush(path: seq<nat>, x: nat, seen: set<nat>)
    ensures Unseen(path + [x], seen) == if x in seen then Unseen(path, seen) else Unseen(path, seen) + [x]
  {
    if path != [] {
      assert (path + [x])[1..] == path[1..] + [x];
      UnseenPush(path[1..], x, seen);
    }
  }

  /** The first inner loop of `calculateProofPaths`. */
  method NewOnPath(path: seq<nat>, seen: set<nat>) returns (minimalPath: seq<nat>, seenIndex: set<nat>)
    requires forall j, k :: 0 <= j < k < |path| ==> path[j] != path[k]
    ensures minimalPath == Unseen(path, seen)
    ensures forall x :: x in seenIndex <==> x in seen || x in path
  {
    minimalPath, seenIndex := [], seen;
    for j := 0 to |path|
      invariant minimalPath == Unseen(path[..j], seen)
      invariant forall x :: x in seenIndex <==> x in seen || x in path[..j]
    {
      assert path[..j + 1] == path[..j] + [path[j]];
      UnseenPush(path[..j], path[j], seen);
      if path[j] !in seenIndex {
        seenIndex := seenIndex + {path[j]};
        minimalPath := minimalPath + [path[j]];
      }
    }
    assert path[..|path|] == path;
  }

  /** The second inner loop of `calculateProofPaths`. */
  method MarkSeen(path: seq<nat>, seen: set<nat>) returns (seenIndex: set<nat>)
    ensures forall x :: x in seenIndex <==> x in seen || x in path
  {
    seenIndex := seen;
    for j := 0 to |path|
      invariant forall x :: x in seenIndex <==> x in seen || x in path[..j]
    {
      assert path[..j + 1] == path[..j] + [path[j]];
      if path[j] !in seenIndex {
        seenIndex := seenIndex + {path[j]};
      }
    }
    assert path[..|path|] == path;
  }

  /** `calculateProofPaths`: the minimal path of every leaf that has one. */
  method CalculateProofPaths(leafCount: nat) returns (minimalProofPath: map<nat, seq<nat>>)
    requires leafCount > 0
    ensures forall i: nat :: i in minimalProofPath <==> i < leafCount && MinimalPath(Shape(leafCount), i) != []
    ensures forall i: nat :: i in minimalProofPath ==> minimalProofPath[i] == MinimalPath(Shape(leafCount), i)
  {
    hide Shape, LeafSet, ProofPath, FullPath, WayTo, WellIndexed, Unseen;
    var t := Shape(leafCount);
    ShapeOk(leafCount);
    minimalProofPath := map[];
    var seenIndex: set<nat> := {};
    for i := 0 to leafCount
      invariant seenIndex == Seen(t, i)
      invariant forall j: nat :: j in minimalProofPath <==> j < i && MinimalPath(t, j) != []
      invariant forall j: nat :: j in minimalProofPath ==> minimalProofPath[j] == MinimalPath(t, j)
    {
      SiblingsDiffer(t, i);
      var path := ProofPathFromLeafIndex(leafCount, i, false);
      var minimalPath, seen := NewOnPath(path, seenIndex + {i});
      UnseenWithout(path, seenIndex, i);
      if |minimalPath| > 0 {
        minimalProofPath := minimalProofPath[i := minimalPath];
      }
      var pathWithCalculatedNodes := ProofPathFromLeafIndex(leafCount, i, true);
      seenIndex := MarkSeen(pathWithCalculatedNodes, seen);
      SeenNext(t, i, seenIndex);
    }
  }

  lemma {:induction false} UnseenWithout(path: seq<nat>, seen: set<nat>, i: nat)
    requires i !in path
    ensures Unseen(path, seen + {i}) == Unseen(path, seen)
  {
    if path != [] {
      UnseenWithout(path[1..], seen, i);
    }
  }

  lemma SeenNext(t: Tree, i: nat, seen: set<nat>)
    requires WellIndexed(t) && i in LeafSet(t)
    requires forall x :: x in seen <==> x in Seen(t, i) || x == i || x in ProofPath(t, i) || x in FullPath(t, i)
    ensures seen == Seen(t, i + 1)
  {
    forall x
      ensures x in seen <==> x in Seen(t, i + 1)
    {
      FullPathIsWay(t, i, x);
      PathIsWay(t, i, x);
    }
  }

  lemma {:induction false} PathIsWay(t: Tree, i: nat, x: nat)
    requires i in LeafSet(t)
    ensures x in ProofPath(t, i) ==> x in WayTo(t, i)
    ensures i in WayTo(t, i) || i == t.index
  {
    if t.Inner? {
      PathIsWay(Toward(t, i), i, x);
    }
  }

  // ------------------------------------------------------------------------- object

  /** The places of the map of nodes with the index of the node in each: every node of the tree has its
      own index as a place, and there is nothing but nodes of the tree. */
  ghost predicate PlacesOk(leafCount: nat, places: map<nat, nat>) {
    && leafCount > 0
    && (forall x :: x in Indices(Shape(leafCount)) ==> x in places && places[x] == x)
    && (forall x :: x in places ==> places[x] in Indices(Shape(leafCount)))
  }

  /** Setting the hashes of the nodes in the listed places, one after the other; other places are skipped. */
  function Overlay(places: map<nat, nat>, hashes: map<nat, Bytes>, nodes: seq<HashNode>): (m: map<nat, Bytes>) {
    if nodes == [] then hashes
    else
      var m, last := Overlay(places, hashes, nodes[..|nodes| - 1]), nodes[|nodes| - 1];
      if last.index in places then m[places[last.index] := last.hash] else m
  }

  class MerkleTree {
    const sha: Bytes -> Bytes
    const leafCount: nat
    const pieceSize: nat
    const places: map<nat, nat>
    var hashes: map<nat, Bytes>
    var pieces: seq<Bytes>
    var rawData: Bytes

    ghost function State(): (st: Tracker)
      reads this
    {
      Tracker(hashes, pieces)
    }

    ghost predicate Ok()
      reads this
    {
      Rooted(leafCount, State()) && PlacesOk(leafCount, places)
    }

    /** Raw data that has been put together is that of the pieces. */
    ghost predicate Whole()
      reads this
    {
      rawData != [] ==> |pieces| >= leafCount && rawData == Concat(pieces)
    }

    constructor (sha: Bytes -> Bytes, pieceSize: nat, leafCount: nat, root: Bytes, places: map<nat, nat>)
      requires PlacesOk(leafCount, places)
      ensures Ok() && Whole() && State() == Start(leafCount, root) && rawData == []
      ensures this.sha == sha && this.leafCount == leafCount && this.pieceSize == pieceSize && this.places == places
    {
      this.sha, this.pieceSize, this.leafCount, this.places := sha, pieceSize, leafCount, places;
      hashes := map[Shape(leafCount).index := root];
      pieces, rawData := [], [];
    }

    method VerifyAndCacheOrdered(targetIndex: nat, targetPiece: Bytes, proof: seq<HashNode>)
      returns (cachedProof: seq<HashNode>, verified: bool)
      requires Ok()
      modifies this`hashes, this`pieces
      ensures Ok() && (old(Whole()) ==> Whole())
      ensures (State(), verified, cachedProof)
           == Submit(sha, leafCount, pieceSize, old(State()), Submission(targetIndex, targetPiece, proof))
    {
      hide Settle, ClimbTo, Shape, PlacesOk;
      if targetIndex >= leafCount || targetIndex != |pieces| {
        return [], false;
      }
      if leafCount > 1 && targetIndex < leafCount - 1 && |targetPiece| != pieceSize {
        return [], false;
      }
      var gain := Check(targetIndex, targetPiece, proof);
      if gain.None? {
        return [], false;
      }
      hashes := hashes + gain.value.kept;
      pieces := pieces + [targetPiece];
      return gain.value.used, true;
    }

    /** The walk from the leaf to the first node with a known hash: what to cache and to report, if
        the computed hash is the known one. */
    method Check(targetIndex: nat, targetPiece: Bytes, proof: seq<HashNode>) returns (gain: Option<Gain>)
      requires Ok() && targetIndex < leafCount
      ensures gain == Settle(sha, Shape(leafCount), targetIndex, targetPiece, proof, hashes)
    {
      hide Shape, ClimbTo, Settle, Spine, PairHash, Known, PlacesOk;
      var t := Shape(leafCount);
      ShapeOk(leafCount);
      var spine := Spine(t, targetIndex);
      SpineStart(t, targetIndex);
      var hash := sha(targetPiece);
      if targetIndex in hashes {
        SettleAtLowest(sha, t, targetIndex, targetPiece, proof, hashes, 0);
        SettleAtLeaf(sha, targetIndex, targetPiece, proof, hashes);
        return if hashes[targetIndex] == hash then Some(Gain(map[], [])) else None;
      }
      var cachedHashes: map<nat, Bytes> := map[];
      var cachedProof := [HashNode(targetIndex, hash)];
      ClimbStart(sha, targetIndex, targetPiece, proof, hashes);
      var k := 0;
      while k + 1 < |spine|
        invariant k < |spine|
        invariant forall m :: 0 <= m <= k ==> spine[m].index !in hashes
        invariant ClimbTo(sha, spine[k], targetIndex, targetPiece, proof, hashes) == At(hash, cachedHashes, cachedProof)
      {
        var parent := spine[k + 1];
        SpineStep(t, targetIndex, k);
        ClimbStep(sha, parent, targetIndex, targetPiece, proof, hashes, At(hash, cachedHashes, cachedProof));
        var pair := Aside(parent, targetIndex);
        var pairHash := PairHash(pair, proof, hashes);
        if pairHash.None? {
          RootKnown(t, targetIndex, hashes.Keys);
          StuckAbove(sha, t, targetIndex, targetPiece, proof, hashes, k + 1);
          return None;
        }
        cachedHashes := cachedHashes[spine[k].index := hash];
        if pair.index !in hashes {
          cachedHashes := cachedHashes[pair.index := pairHash.value];
          cachedProof := cachedProof + [HashNode(pair.index, pairHash.value)];
        }
        hash := sha(Preimage(parent, targetIndex, hash, pairHash.value));
        if parent.index in hashes {
          SettleAtLowest(sha, t, targetIndex, targetPiece, proof, hashes, k + 1);
          NothingBelowSpine(t, targetIndex, hashes.Keys, k);
          SettleHere(sha, parent, targetIndex, targetPiece, proof, hashes);
          return if hash == hashes[parent.index] then Some(Gain(cachedHashes, cachedProof)) else None;
        }
        k := k + 1;
      }
    }

    /** Raw data that was put together before is not replaced. */
    method SetRawDataPieces(rawDataPieces: seq<Bytes>)
      requires Ok()
      modifies this`pieces
      ensures Ok() && State() == Tracker(old(hashes), rawDataPieces)
    {
      pieces := rawDataPieces;
    }

    method SetProofNodes(nodes: seq<HashNode>)
      requires Ok()
      modifies this`hashes
      ensures Ok() && hashes == Overlay(places, old(hashes), nodes)
    {
      hide Shape, PlacesOk;
      for k := 0 to |nodes|
        invariant hashes == Overlay(places, old(hashes), nodes[..k]) && Shape(leafCount).index in hashes
      {
        assert nodes[..k + 1][..k] == nodes[..k];
        if nodes[k].index in places {
          hashes := hashes[places[nodes[k].index] := nodes[k].hash];
        }
      }
      assert nodes[..|nodes|] == nodes;
    }

    method CompleteRawData() returns (raw: Option<Bytes>)
      requires Ok()
      modifies this`rawData
      ensures Ok() && (old(Whole()) ==> Whole())
      ensures raw == if |pieces| < leafCount then None
                     else if old(rawData) != [] then Some(old(rawData)) else Some(Concat(pieces))
      ensures old(Whole()) && raw.Some? ==> raw.value == Concat(pieces)
    {
      hide Shape, PlacesOk;
      if |pieces| < leafCount {
        return None;
      }
      if |rawData| > 0 {
        return Some(rawData);
      }
      for k := 0 to |pieces|
        invariant rawData + Concat(pieces[k..]) == Concat(pieces)
      {
        assert pieces[k..][1..] == pieces[k + 1..];
        assert rawData + (pieces[k] + Concat(pieces[k + 1..])) == rawData + pieces[k] + Concat(pieces[k + 1..]);
        rawData := rawData + pieces[k];
      }
      return Some(rawData);
    }
  }

  lemma RootKnown(t: Tree, i: nat, kept: set<nat>)
    requires t.index in kept
    ensures Known(t, i, kept)
  {
  }

  lemma {:induction false} NothingBelowSpine(t: Tree, i: nat, kept: set<nat>, k: nat)
    requires k < |Spine(t, i)| && forall m :: 0 <= m <= k ==> Spine(t, i)[m].index !in kept
    ensures !Known(Spine(t, i)[k], i, kept)
    decreases t
  {
    if k == |Spine(t, i)| - 1 {
      NothingKnown(t, i, kept);
    } else {
      assert forall m :: 0 <= m <= k ==> Spine(Toward(t, i), i)[m] == Spine(t, i)[m];
      NothingBelowSpine(Toward(t, i), i, kept, k);
    }
  }
}
