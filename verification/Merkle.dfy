/** The Merkle tree by which raw data is collected piece by piece, x/oracle/types/merkletree.go. */
module Merkle {
  import opened Common
  import opened OracleTx

  // ----------------------------------------------------------------------- shape

  /** A node with the index the source files it under. */
  datatype Tree = Leaf(index: nat) | Inner(index: nat, left: Tree, right: Tree)

  function Indices(t: Tree): (s: set<nat>) {
    match t
    case Leaf(i) => {i}
    case Inner(i, l, r) => {i} + Indices(l) + Indices(r)
  }

  function LeafSet(t: Tree): (s: set<nat>) {
    match t
    case Leaf(i) => {i}
    case Inner(_, l, r) => LeafSet(l) + LeafSet(r)
  }

  /** No index is used twice. */
  predicate WellIndexed(t: Tree) {
    match t
    case Leaf(_) => true
    case Inner(i, l, r) =>
      && WellIndexed(l) && WellIndexed(r)
      && Indices(l) !! Indices(r) && i !in Indices(l) && i !in Indices(r)
  }

  /** A node without a sibling moves up a layer; an inner node takes the index of its new place. */
  function Lift(t: Tree, index: nat): (r: Tree) {
    match t
    case Leaf(_) => t
    case Inner(_, l, r) => Inner(index, l, r)
  }

  /** The layer above, whose indices start at `next`. */
  function Above(layer: seq<Tree>, next: nat): (up: seq<Tree>)
    ensures |up| == (|layer| + 1) / 2
    ensures forall j :: 0 <= j < |up| ==>
              up[j] == if 2 * j + 1 < |layer| then Inner(next + j, layer[2 * j], layer[2 * j + 1])
                       else Lift(layer[2 * j], next + j)
  {
    seq((|layer| + 1) / 2, j requires 0 <= j < (|layer| + 1) / 2 =>
      if 2 * j + 1 < |layer| then Inner(next + j, layer[2 * j], layer[2 * j + 1])
      else Lift(layer[2 * j], next + j))
  }

  function Build(layer: seq<Tree>, offset: nat): (t: Tree)
    requires layer != []
    decreases |layer|
  {
    if |layer| == 1 then layer[0] else Build(Above(layer, offset + |layer|), offset + |layer|)
  }

  function Leaves(n: nat): (layer: seq<Tree>)
    ensures |layer| == n && forall i :: 0 <= i < n ==> layer[i] == Leaf(i)
  {
    seq(n, i requires 0 <= i < n => Leaf(i))
  }

  /** The tree over `n` leaves. */
  function Shape(n: nat): (t: Tree)
    requires n > 0
  {
    Build(Leaves(n), 0)
  }

  /** Within a layer: the trees are well indexed and apart, and use indices below the next layer's. */
  ghost predicate LayerOk(layer: seq<Tree>, next: nat) {
    && (forall k :: 0 <= k < |layer| ==> WellIndexed(layer[k]) && forall i :: i in Indices(layer[k]) ==> i < next)
    && (forall k, l :: 0 <= k < l < |layer| ==> Indices(layer[k]) !! Indices(layer[l]))
  }

  lemma LiftIndices(t: Tree, index: nat)
    requires WellIndexed(t) && index !in Indices(t)
    ensures WellIndexed(Lift(t, index)) && Indices(Lift(t, index)) <= Indices(t) + {index}
    ensures LeafSet(Lift(t, index)) == LeafSet(t)
  {
  }

  lemma AboveAt(layer: seq<Tree>, next: nat, j: nat)
    requires LayerOk(layer, next) && j < |Above(layer, next)|
    ensures var u := Above(layer, next)[j];
            && WellIndexed(u)
            && forall i :: i in Indices(u) ==> i == next + j || i in Indices(layer[2 * j])
                                               || (2 * j + 1 < |layer| && i in Indices(layer[2 * j + 1]))
  {
    if 2 * j + 1 >= |layer| {
      LiftIndices(layer[2 * j], next + j);
    }
  }

  lemma AboveOk(layer: seq<Tree>, next: nat)
    requires LayerOk(layer, next)
    ensures LayerOk(Above(layer, next), next + |Above(layer, next)|)
  {
    hide Indices, WellIndexed;
    var up := Above(layer, next);
    forall j | 0 <= j < |up|
      ensures WellIndexed(up[j]) && forall i :: i in Indices(up[j]) ==> i < next + |up|
    {
      AboveAt(layer, next, j);
    }
    forall j, k | 0 <= j < k < |up|
      ensures Indices(up[j]) !! Indices(up[k])
    {
      forall i
        ensures !(i in Indices(up[j]) && i in Indices(up[k]))
      {
        ApartAbove(layer, next, i, j, k);
      }
    }
  }

  lemma ApartAbove(layer: seq<Tree>, next: nat, i: nat, j: nat, k: nat)
    requires LayerOk(layer, next) && j < k < |Above(layer, next)|
    ensures !(i in Indices(Above(layer, next)[j]) && i in Indices(Above(layer, next)[k]))
  {
    hide Indices, WellIndexed, LayerOk, Above;
    AboveAt(layer, next, j);
    AboveAt(layer, next, k);
    ApartInLayer(layer, next, i, 2 * j, 2 * k);
    ApartInLayer(layer, next, i, 2 * j + 1, 2 * k);
    if 2 * k + 1 < |layer| {
      ApartInLayer(layer, next, i, 2 * j, 2 * k + 1);
      ApartInLayer(layer, next, i, 2 * j + 1, 2 * k + 1);
    }
  }

  lemma ApartInLayer(layer: seq<Tree>, next: nat, i: nat, k: nat, l: nat)
    requires LayerOk(layer, next) && k < l < |layer|
    ensures !(i in Indices(layer[k]) && i in Indices(layer[l]))
    ensures i in Indices(layer[k]) || i in Indices(layer[l]) ==> i < next
  {
    assert Indices(layer[k]) !! Indices(layer[l]);
  }

  ghost predicate HasLeaf(layer: seq<Tree>, i: nat) {
    exists k :: 0 <= k < |layer| && i in LeafSet(layer[k])
  }

  lemma AboveLeaves(layer: seq<Tree>, next: nat, i: nat)
    ensures HasLeaf(Above(layer, next), i) <==> HasLeaf(layer, i)
  {
    var up := Above(layer, next);
    if HasLeaf(layer, i) {
      var k :| 0 <= k < |layer| && i in LeafSet(layer[k]);
      assert i in LeafSet(up[k / 2]);
    }
    if HasLeaf(up, i) {
      var j :| 0 <= j < |up| && i in LeafSet(up[j]);
      assert i in LeafSet(layer[2 * j]) || (2 * j + 1 < |layer| && i in LeafSet(layer[2 * j + 1]));
    }
  }

  lemma {:induction false} BuildOk(layer: seq<Tree>, offset: nat, i: nat)
    requires layer != [] && LayerOk(layer, offset + |layer|)
    ensures WellIndexed(Build(layer, offset))
    ensures i in LeafSet(Build(layer, offset)) <==> HasLeaf(layer, i)
    decreases |layer|
  {
    hide LayerOk, WellIndexed, LeafSet, Above;
    if |layer| == 1 {
      OnlyTree(layer, offset + 1, i);
    } else {
      AboveOk(layer, offset + |layer|);
      AboveLeaves(layer, offset + |layer|, i);
      BuildOk(Above(layer, offset + |layer|), offset + |layer|, i);
    }
  }

  lemma OnlyTree(layer: seq<Tree>, next: nat, i: nat)
    requires |layer| == 1 && LayerOk(layer, next)
    ensures WellIndexed(layer[0]) && (i in LeafSet(layer[0]) <==> HasLeaf(layer, i))
  {
  }

  lemma LeavesOk(n: nat, i: nat)
    ensures LayerOk(Leaves(n), n) && (HasLeaf(Leaves(n), i) <==> i < n)
  {
    var layer := Leaves(n);
    assert forall k :: 0 <= k < n ==> Indices(layer[k]) == {k} && LeafSet(layer[k]) == {k};
    if i < n {
      assert i in LeafSet(layer[i]);
    }
  }

  /** The tree over `n` leaves files every node under its own index, and has the leaves 0 to n - 1. */
  lemma ShapeOk(n: nat)
    requires n > 0
    ensures WellIndexed(Shape(n))
    ensures forall i: nat :: i in LeafSet(Shape(n)) <==> i < n
  {
    hide LayerOk, WellIndexed, LeafSet, Build, HasLeaf, Leaves;
    forall i: nat
      ensures WellIndexed(Shape(n)) && (i in LeafSet(Shape(n)) <==> i < n)
    {
      LeavesOk(n, i);
      BuildOk(Leaves(n), 0, i);
    }
    LeavesOk(n, 0);
    BuildOk(Leaves(n), 0, 0);
  }

  /** The node filed under an index. */
  function NodeAt(t: Tree, index: nat): (u: Tree) {
    if t.Leaf? || t.index == index then t
    else if index in Indices(t.left) then NodeAt(t.left, index)
    else NodeAt(t.right, index)
  }

  // ---------------------------------------------------------------------- hashes

  /** SHA-256 as far as it is used: digests have 32 bytes. */
  ghost predicate Digests(sha: Bytes -> Bytes) {
    forall b :: |sha(b)| == 32
  }

  function InnerHash(sha: Bytes -> Bytes, l: Bytes, r: Bytes): (h: Bytes) {
    sha(l + r)
  }

  /** The hash of a node in the tree of the given pieces. */
  function HashOf(sha: Bytes -> Bytes, t: Tree, pieces: seq<Bytes>): (h: Bytes) {
    match t
    case Leaf(i) => if i < |pieces| then sha(pieces[i]) else []
    case Inner(_, l, r) => InnerHash(sha, HashOf(sha, l, pieces), HashOf(sha, r, pieces))
  }

  /** The layer of hashes above: neighbours are hashed together, and a last one alone moves up. */
  function HashesAbove(sha: Bytes -> Bytes, hs: seq<Bytes>): (up: seq<Bytes>) {
    seq((|hs| + 1) / 2, j requires 0 <= j < (|hs| + 1) / 2 =>
      if 2 * j + 1 < |hs| then sha(hs[2 * j] + hs[2 * j + 1]) else hs[2 * j])
  }

  /** The root of a layer of hashes, without a tree. */
  function RootOfHashes(sha: Bytes -> Bytes, hs: seq<Bytes>): (root: Bytes)
    requires hs != []
    decreases |hs|
  {
    if |hs| == 1 then hs[0] else RootOfHashes(sha, HashesAbove(sha, hs))
  }

  function HashesOf(sha: Bytes -> Bytes, layer: seq<Tree>, pieces: seq<Bytes>): (hs: seq<Bytes>)
    ensures |hs| == |layer| && forall k :: 0 <= k < |hs| ==> hs[k] == HashOf(sha, layer[k], pieces)
  {
    seq(|layer|, k requires 0 <= k < |layer| => HashOf(sha, layer[k], pieces))
  }

  lemma HashesOfAbove(sha: Bytes -> Bytes, layer: seq<Tree>, next: nat, pieces: seq<Bytes>)
    ensures HashesOf(sha, Above(layer, next), pieces) == HashesAbove(sha, HashesOf(sha, layer, pieces))
  {
    var up, a, b := Above(layer, next), HashesOf(sha, Above(layer, next), pieces), HashesAbove(sha, HashesOf(sha, layer, pieces));
    forall j | 0 <= j < |up|
      ensures a[j] == b[j]
    {
      assert a[j] == HashOf(sha, up[j], pieces);
    }
  }

  lemma LayerUp(sha: Bytes -> Bytes, layer: seq<Tree>, offset: nat, hs: seq<Bytes>)
    requires |layer| == |hs| > 1
    ensures Build(layer, offset) == Build(Above(layer, offset + |layer|), offset + |layer|)
    ensures HashesAbove(sha, hs) != [] && RootOfHashes(sha, hs) == RootOfHashes(sha, HashesAbove(sha, hs))
  {
  }

  lemma RootAlone(sha: Bytes -> Bytes, layer: seq<Tree>, offset: nat, pieces: seq<Bytes>)
    requires |layer| == 1
    ensures HashOf(sha, Build(layer, offset), pieces) == RootOfHashes(sha, HashesOf(sha, layer, pieces))
  {
  }

  lemma {:induction false} RootOfLayer(sha: Bytes -> Bytes, layer: seq<Tree>, offset: nat, pieces: seq<Bytes>)
    requires layer != []
    ensures HashOf(sha, Build(layer, offset), pieces) == RootOfHashes(sha, HashesOf(sha, layer, pieces))
    decreases |layer|
  {
    hide Above, HashOf, HashesAbove, HashesOf, Build, RootOfHashes;
    if |layer| > 1 {
      LayerUp(sha, layer, offset, HashesOf(sha, layer, pieces));
      HashesOfAbove(sha, layer, offset + |layer|, pieces);
      RootOfLayer(sha, Above(layer, offset + |layer|), offset + |layer|, pieces);
    } else {
      RootAlone(sha, layer, offset, pieces);
    }
  }

  /** The root hash is computed layer by layer: the digests of the pieces, then those of neighbours taken
      together, left before right. */
  lemma RootIsLayered(sha: Bytes -> Bytes, pieces: seq<Bytes>)
    requires pieces != []
    ensures HashOf(sha, Shape(|pieces|), pieces)
         == RootOfHashes(sha, seq(|pieces|, i requires 0 <= i < |pieces| => sha(pieces[i])))
  {
    var layer := Leaves(|pieces|);
    RootOfLayer(sha, layer, 0, pieces);
    assert HashesOf(sha, layer, pieces) == seq(|pieces|, i requires 0 <= i < |pieces| => sha(pieces[i]));
  }

  /** Every hash that is kept for a node of the tree is the node's. */
  ghost predicate TrueHashes(sha: Bytes -> Bytes, t: Tree, pieces: seq<Bytes>, hashes: map<nat, Bytes>) {
    && (t.index in hashes ==> hashes[t.index] == HashOf(sha, t, pieces))
    && (t.Inner? ==> TrueHashes(sha, t.left, pieces, hashes) && TrueHashes(sha, t.right, pieces, hashes))
  }

  /** Siblings are kept together, and never without their parent. */
  ghost predicate Closed(t: Tree, kept: set<nat>) {
    t.Inner? ==>
      && (t.left.index in kept <==> t.right.index in kept)
      && (t.left.index in kept ==> t.index in kept)
      && Closed(t.left, kept) && Closed(t.right, kept)
  }

  // ----------------------------------------------------------------------- climb

  /** `getHashNodeByIndex`, and the check that the hash is not empty. */
  function Lookup(proof: seq<HashNode>, index: nat): (h: Option<Bytes>)
    ensures h.Some? ==> h.value != []
  {
    if proof == [] then None
    else if proof[0].index == index then (if proof[0].hash == [] then None else Some(proof[0].hash))
    else Lookup(proof[1..], index)
  }

  /** The first node of a proof with the index counts, if its hash is not empty. */
  lemma {:induction false} LookupFindsFirst(proof: seq<HashNode>, index: nat, h: Bytes)
    ensures Lookup(proof, index) == Some(h) <==>
              h != [] && exists k :: 0 <= k < |proof| && proof[k] == HashNode(index, h)
                                     && forall m :: 0 <= m < k ==> proof[m].index != index
  {
    if proof != [] && proof[0].index != index {
      LookupFindsFirst(proof[1..], index, h);
      if Lookup(proof[1..], index) == Some(h) {
        var k :| 0 <= k < |proof[1..]| && proof[1..][k] == HashNode(index, h)
                 && forall m :: 0 <= m < k ==> proof[1..][m].index != index;
        assert proof[k + 1] == HashNode(index, h);
        assert forall m :: 0 <= m < k + 1 ==> proof[m].index != index by {
          forall m | 0 <= m < k + 1
            ensures proof[m].index != index
          {
            assert m > 0 ==> proof[m] == proof[1..][m - 1];
          }
        }
      }
      if k :| 0 <= k < |proof| && proof[k] == HashNode(index, h) && forall m :: 0 <= m < k ==> proof[m].index != index {
        assert k > 0 && proof[1..][k - 1] == HashNode(index, h);
        assert forall m :: 0 <= m < k - 1 ==> proof[1..][m] == proof[m + 1];
      }
    }
  }

  /** The child on the way to leaf `i`, and the other one. */
  function Toward(t: Tree, i: nat): (c: Tree)
    requires t.Inner?
  {
    if i in LeafSet(t.left) then t.left else t.right
  }

  function Aside(t: Tree, i: nat): (c: Tree)
    requires t.Inner?
  {
    if i in LeafSet(t.left) then t.right else t.left
  }

  /** What is computed for a node on the way up: its hash, the hashes to keep below it, and of
      these the leaf's and those taken from the proof. */
  datatype Climb = Stuck | At(hash: Bytes, kept: map<nat, Bytes>, used: seq<HashNode>)

  /** The hash of the sibling: kept, or else from the proof. */
  function PairHash(pair: Tree, proof: seq<HashNode>, hashes: map<nat, Bytes>): (h: Option<Bytes>) {
    if pair.index in hashes then Some(hashes[pair.index]) else Lookup(proof, pair.index)
  }

  /** The hash of `t` as computed from the piece at leaf `i` and the siblings on the way. */
  function ClimbTo(
    sha: Bytes -> Bytes, t: Tree, i: nat, piece: Bytes, proof: seq<HashNode>, hashes: map<nat, Bytes>
  ): (c: Climb)
  {
    if t.Leaf? then At(sha(piece), map[], [HashNode(i, sha(piece))])
    else
      var child, pair := Toward(t, i), Aside(t, i);
      var c, pairHash := ClimbTo(sha, child, i, piece, proof, hashes), PairHash(pair, proof, hashes);
      if c.Stuck? || pairHash.None? then Stuck
      else
        At(sha(Preimage(t, i, c.hash, pairHash.value)),
           c.kept[child.index := c.hash] + if pair.index in hashes then map[] else map[pair.index := pairHash.value],
           c.used + if pair.index in hashes then [] else [HashNode(pair.index, pairHash.value)])
  }

  /** What is hashed for an inner node: the two hashes below it in their order. */
  function Preimage(t: Tree, i: nat, hash: Bytes, pairHash: Bytes): (b: Bytes)
    requires t.Inner?
  {
    if i in LeafSet(t.left) then hash + pairHash else pairHash + hash
  }

  /** At no node of the way does the climb hash something else to the node's own hash. */
  ghost predicate NoSecondPreimage(
    sha: Bytes -> Bytes, t: Tree, pieces: seq<Bytes>, i: nat, piece: Bytes, proof: seq<HashNode>, hashes: map<nat, Bytes>
  )
  {
    match t
    case Leaf(k) => k < |pieces| && sha(piece) == sha(pieces[k]) ==> piece == pieces[k]
    case Inner(_, l, r) =>
      && NoSecondPreimage(sha, Toward(t, i), pieces, i, piece, proof, hashes)
      && var c, pairHash := ClimbTo(sha, Toward(t, i), i, piece, proof, hashes), PairHash(Aside(t, i), proof, hashes);
         c.At? && pairHash.Some? ==>
           var mine, own := Preimage(t, i, c.hash, pairHash.value), HashOf(sha, l, pieces) + HashOf(sha, r, pieces);
           sha(mine) == sha(own) ==> mine == own
  }

  lemma {:induction false} RootIsNode(t: Tree)
    ensures t.index in Indices(t)
  {
  }

  lemma {:induction false} HashLength(sha: Bytes -> Bytes, t: Tree, pieces: seq<Bytes>)
    requires Digests(sha) && forall k :: k in LeafSet(t) ==> k < |pieces|
    ensures |HashOf(sha, t, pieces)| == 32
  {
    if t.Leaf? {
      assert t.index in LeafSet(t);
    }
  }

  lemma {:induction false} ClimbLength(
    sha: Bytes -> Bytes, t: Tree, i: nat, piece: Bytes, proof: seq<HashNode>, hashes: map<nat, Bytes>
  )
    requires Digests(sha) && ClimbTo(sha, t, i, piece, proof, hashes).At?
    ensures |ClimbTo(sha, t, i, piece, proof, hashes).hash| == 32
  {
  }

  /** The hashes kept by a climb belong to nodes below its end. */
  lemma {:induction false} KeptBelow(
    sha: Bytes -> Bytes, t: Tree, i: nat, piece: Bytes, proof: seq<HashNode>, hashes: map<nat, Bytes>
  )
    requires WellIndexed(t) && ClimbTo(sha, t, i, piece, proof, hashes).At?
    ensures ClimbTo(sha, t, i, piece, proof, hashes).kept.Keys <= Indices(t) - {t.index}
  {
    if t.Inner? {
      KeptBelow(sha, Toward(t, i), i, piece, proof, hashes);
      RootIsNode(t.left);
      RootIsNode(t.right);
    }
  }

  /** Hashes that are true apart are true together. */
  lemma {:induction false} TrueTogether(sha: Bytes -> Bytes, t: Tree, pieces: seq<Bytes>, a: map<nat, Bytes>, b: map<nat, Bytes>)
    requires TrueHashes(sha, t, pieces, a) && TrueHashes(sha, t, pieces, b)
    ensures TrueHashes(sha, t, pieces, a + b)
  {
    if t.Inner? {
      TrueTogether(sha, t.left, pieces, a, b);
      TrueTogether(sha, t.right, pieces, a, b);
    }
  }

  /** A single true hash. */
  lemma {:induction false} TrueAlone(sha: Bytes -> Bytes, t: Tree, pieces: seq<Bytes>)
    requires WellIndexed(t)
    ensures TrueHashes(sha, t, pieces, map[t.index := HashOf(sha, t, pieces)])
  {
    if t.Inner? {
      TrueOfNone(sha, t.left, pieces, map[t.index := HashOf(sha, t, pieces)]);
      TrueOfNone(sha, t.right, pieces, map[t.index := HashOf(sha, t, pieces)]);
    }
  }

  lemma {:induction false} TrueOfNone(sha: Bytes -> Bytes, t: Tree, pieces: seq<Bytes>, a: map<nat, Bytes>)
    requires a.Keys !! Indices(t)
    ensures TrueHashes(sha, t, pieces, a)
  {
    RootIsNode(t);
    if t.Inner? {
      TrueOfNone(sha, t.left, pieces, a);
      TrueOfNone(sha, t.right, pieces, a);
    }
  }

  lemma SplitPair(a: Bytes, b: Bytes, c: Bytes, d: Bytes)
    requires a + b == c + d && (|a| == |c| || |b| == |d|)
    ensures a == c && b == d
  {
    assert |a + b| == |c + d|;
    assert a == (a + b)[..|a|] && c == (c + d)[..|c|];
    assert b == (a + b)[|a|..] && d == (c + d)[|c|..];
  }

  lemma PreimageParts(t: Tree, i: nat, hash: Bytes, pairHash: Bytes, l: Bytes, r: Bytes)
    requires t.Inner? && |hash| == |l| == |r| && Preimage(t, i, hash, pairHash) == l + r
    ensures hash == if i in LeafSet(t.left) then l else r
    ensures pairHash == if i in LeafSet(t.left) then r else l
  {
    if i in LeafSet(t.left) {
      SplitPair(hash, pairHash, l, r);
    } else {
      SplitPair(pairHash, hash, l, r);
    }
  }

  /** The hash below and the hash beside are right if the hash above is. */
  lemma StepIsSound(
    sha: Bytes -> Bytes, t: Tree, pieces: seq<Bytes>, i: nat, piece: Bytes, proof: seq<HashNode>, hashes: map<nat, Bytes>
  )
    requires Digests(sha) && t.Inner? && forall k :: k in LeafSet(t) ==> k < |pieces|
    requires NoSecondPreimage(sha, t, pieces, i, piece, proof, hashes)
    requires ClimbTo(sha, t, i, piece, proof, hashes).At?
    requires ClimbTo(sha, t, i, piece, proof, hashes).hash == HashOf(sha, t, pieces)
    ensures var child, pair := Toward(t, i), Aside(t, i);
            && ClimbTo(sha, child, i, piece, proof, hashes).At?
            && ClimbTo(sha, child, i, piece, proof, hashes).hash == HashOf(sha, child, pieces)
            && PairHash(pair, proof, hashes) == Some(HashOf(sha, pair, pieces))
  {
    var child, pair := Toward(t, i), Aside(t, i);
    HashLength(sha, t.left, pieces);
    HashLength(sha, t.right, pieces);
    ClimbLength(sha, child, i, piece, proof, hashes);
    PreimageParts(t, i, ClimbTo(sha, child, i, piece, proof, hashes).hash, PairHash(pair, proof, hashes).value,
                  HashOf(sha, t.left, pieces), HashOf(sha, t.right, pieces));
  }

  /** If a climb ends in the right hash without finding a second preimage, then the piece is the
      right one and all hashes it keeps are true. */
  lemma {:induction false} ClimbIsSound(
    sha: Bytes -> Bytes, t: Tree, pieces: seq<Bytes>, i: nat, piece: Bytes, proof: seq<HashNode>, hashes: map<nat, Bytes>
  )
    requires Digests(sha) && WellIndexed(t) && i in LeafSet(t) && forall k :: k in LeafSet(t) ==> k < |pieces|
    requires NoSecondPreimage(sha, t, pieces, i, piece, proof, hashes)
    requires ClimbTo(sha, t, i, piece, proof, hashes).At?
    requires ClimbTo(sha, t, i, piece, proof, hashes).hash == HashOf(sha, t, pieces)
    ensures piece == pieces[i]
    ensures TrueHashes(sha, t, pieces, ClimbTo(sha, t, i, piece, proof, hashes).kept)
  {
    if t.Inner? {
      var child, pair := Toward(t, i), Aside(t, i);
      StepIsSound(sha, t, pieces, i, piece, proof, hashes);
      ClimbIsSound(sha, child, pieces, i, piece, proof, hashes);
      KeptTrue(sha, t, pieces, i, piece, proof, hashes);
    }
  }

  lemma KeptTrue(
    sha: Bytes -> Bytes, t: Tree, pieces: seq<Bytes>, i: nat, piece: Bytes, proof: seq<HashNode>, hashes: map<nat, Bytes>
  )
    requires WellIndexed(t) && t.Inner? && ClimbTo(sha, t, i, piece, proof, hashes).At?
    requires var child, pair := Toward(t, i), Aside(t, i);
             var c := ClimbTo(sha, child, i, piece, proof, hashes);
             && c.At? && c.hash == HashOf(sha, child, pieces) && TrueHashes(sha, child, pieces, c.kept)
             && PairHash(pair, proof, hashes) == Some(HashOf(sha, pair, pieces))
    ensures TrueHashes(sha, t, pieces, ClimbTo(sha, t, i, piece, proof, hashes).kept)
  {
    var child, pair := Toward(t, i), Aside(t, i);
    var c := ClimbTo(sha, child, i, piece, proof, hashes);
    KeptBelow(sha, child, i, piece, proof, hashes);
    JoinTrue(sha, t, pieces, i, c.kept, if pair.index in hashes then map[] else map[pair.index := HashOf(sha, pair, pieces)]);
  }

  /** True hashes below one child, with the child's own, and perhaps that of its sibling. */
  lemma JoinTrue(sha: Bytes -> Bytes, t: Tree, pieces: seq<Bytes>, i: nat, kept: map<nat, Bytes>, beside: map<nat, Bytes>)
    requires WellIndexed(t) && t.Inner?
    requires kept.Keys <= Indices(Toward(t, i)) && TrueHashes(sha, Toward(t, i), pieces, kept)
    requires beside == map[] || beside == map[Aside(t, i).index := HashOf(sha, Aside(t, i), pieces)]
    ensures TrueHashes(sha, t, pieces, kept[Toward(t, i).index := HashOf(sha, Toward(t, i), pieces)] + beside)
  {
    hide HashOf, LeafSet;
    var child, pair := Toward(t, i), Aside(t, i);
    var own := map[child.index := HashOf(sha, child, pieces)];
    var mine := kept + own;
    RootIsNode(child);
    RootIsNode(pair);
    assert kept[child.index := HashOf(sha, child, pieces)] == mine;
    TrueAlone(sha, child, pieces);
    TrueTogether(sha, child, pieces, kept, own);
    TrueOfNone(sha, child, pieces, beside);
    TrueTogether(sha, child, pieces, mine, beside);
    TrueOfNone(sha, pair, pieces, mine);
    if beside == map[] {
      TrueOfNone(sha, pair, pieces, beside);
    } else {
      TrueAlone(sha, pair, pieces);
    }
    TrueTogether(sha, pair, pieces, mine, beside);
  }

  // ------------------------------------------------------------------- settling

  /** Some node on the way from leaf `i` to the root of `t` has its hash kept. */
  predicate Known(t: Tree, i: nat, kept: set<nat>) {
    t.index in kept || (t.Inner? && Known(Toward(t, i), i, kept))
  }

  /** What a successful check brings: hashes to keep, and the proof nodes to report. */
  datatype Gain = Gain(kept: map<nat, Bytes>, used: seq<HashNode>)

  /** Leaf `i` is checked against the lowest node above it whose hash is kept. */
  function Settle(
    sha: Bytes -> Bytes, t: Tree, i: nat, piece: Bytes, proof: seq<HashNode>, hashes: map<nat, Bytes>
  ): (g: Option<Gain>)
    requires Known(t, i, hashes.Keys)
  {
    if t.Inner? && Known(Toward(t, i), i, hashes.Keys) then Settle(sha, Toward(t, i), i, piece, proof, hashes)
    else if t.Leaf? then (if sha(piece) == hashes[t.index] then Some(Gain(map[], [])) else None)
    else
      match ClimbTo(sha, t, i, piece, proof, hashes)
      case Stuck => None
      case At(hash, kept, used) => if hash == hashes[t.index] then Some(Gain(kept, used)) else None
  }

  /** In a closed set nothing on the way is kept unless the root is. */
  lemma {:induction false} KnownIfClosed(t: Tree, i: nat, kept: set<nat>)
    requires Closed(t, kept)
    ensures Known(t, i, kept) <==> t.index in kept
  {
    if t.Inner? {
      KnownIfClosed(Toward(t, i), i, kept);
    }
  }

  /** A check that succeeds without finding a second preimage has the right piece, and keeps
      only true hashes. */
  lemma {:induction false} SettleIsSound(
    sha: Bytes -> Bytes, t: Tree, pieces: seq<Bytes>, i: nat, piece: Bytes, proof: seq<HashNode>, hashes: map<nat, Bytes>
  )
    requires Digests(sha) && WellIndexed(t) && i in LeafSet(t) && forall k :: k in LeafSet(t) ==> k < |pieces|
    requires Known(t, i, hashes.Keys) && TrueHashes(sha, t, pieces, hashes)
    requires NoSecondPreimage(sha, t, pieces, i, piece, proof, hashes)
    requires Settle(sha, t, i, piece, proof, hashes).Some?
    ensures piece == pieces[i]
    ensures Settle(sha, t, i, piece, proof, hashes).value.kept.Keys <= Indices(t) - {t.index}
    ensures TrueHashes(sha, t, pieces, Settle(sha, t, i, piece, proof, hashes).value.kept)
  {
    var k := Settle(sha, t, i, piece, proof, hashes).value.kept;
    if t.Leaf? {
      assert t.index in LeafSet(t);
    } else if Known(Toward(t, i), i, hashes.Keys) {
      SettleIsSound(sha, Toward(t, i), pieces, i, piece, proof, hashes);
      TrueOfNone(sha, Aside(t, i), pieces, k);
    } else {
      ClimbIsSound(sha, t, pieces, i, piece, proof, hashes);
      KeptBelow(sha, t, i, piece, proof, hashes);
    }
  }

  /** The nodes on the way from leaf `i` to the root of `t`, below the root, and their siblings. */
  function WayTo(t: Tree, i: nat): (s: set<nat>) {
    if t.Leaf? then {} else WayTo(Toward(t, i), i) + {t.left.index, t.right.index}
  }

  lemma {:induction false} WayIsBelow(t: Tree, i: nat)
    requires WellIndexed(t)
    ensures WayTo(t, i) <= Indices(t) - {t.index}
  {
    if t.Inner? {
      WayIsBelow(Toward(t, i), i);
      RootIsNode(t.left);
      RootIsNode(t.right);
    }
  }

  /** If a node's hash is not kept, neither is any below it. */
  lemma {:induction false} NothingBelow(t: Tree, hashes: map<nat, Bytes>)
    requires Closed(t, hashes.Keys) && t.index !in hashes
    ensures hashes.Keys !! Indices(t)
  {
    if t.Inner? {
      NothingBelow(t.left, hashes);
      NothingBelow(t.right, hashes);
    }
  }

  /** A climb through nodes without kept hashes keeps the hash of every node on the way. */
  lemma {:induction false} ClimbKeepsWay(
    sha: Bytes -> Bytes, t: Tree, i: nat, piece: Bytes, proof: seq<HashNode>, hashes: map<nat, Bytes>
  )
    requires WellIndexed(t) && hashes.Keys !! Indices(t) - {t.index}
    requires ClimbTo(sha, t, i, piece, proof, hashes).At?
    ensures ClimbTo(sha, t, i, piece, proof, hashes).kept.Keys == WayTo(t, i)
  {
    if t.Inner? {
      RootIsNode(t.left);
      RootIsNode(t.right);
      ClimbKeepsWay(sha, Toward(t, i), i, piece, proof, hashes);
    }
  }

  /** After a successful check the hashes of all nodes on the way are kept, and no others besides
      those kept before. */
  lemma {:induction false} SettleKeepsWay(
    sha: Bytes -> Bytes, t: Tree, i: nat, piece: Bytes, proof: seq<HashNode>, hashes: map<nat, Bytes>
  )
    requires WellIndexed(t) && Closed(t, hashes.Keys) && t.index in hashes
    requires Settle(sha, t, i, piece, proof, hashes).Some?
    ensures (hashes + Settle(sha, t, i, piece, proof, hashes).value.kept).Keys == hashes.Keys + WayTo(t, i)
    ensures Settle(sha, t, i, piece, proof, hashes).value.kept.Keys <= WayTo(t, i)
  {
    if t.Inner? {
      KnownIfClosed(Toward(t, i), i, hashes.Keys);
      if Toward(t, i).index in hashes {
        SettleKeepsWay(sha, Toward(t, i), i, piece, proof, hashes);
      } else {
        NothingBelow(t.left, hashes);
        NothingBelow(t.right, hashes);
        ClimbKeepsWay(sha, t, i, piece, proof, hashes);
      }
    }
  }

  lemma {:induction false} ClosedElsewhere(t: Tree, a: set<nat>, b: set<nat>)
    requires a * Indices(t) == b * Indices(t)
    ensures Closed(t, a) <==> Closed(t, b)
  {
    assert t.index in a * Indices(t) <==> t.index in a;
    assert t.index in b * Indices(t) <==> t.index in b;
    if t.Inner? {
      SameWithin(t, t.left, a, b);
      SameWithin(t, t.right, a, b);
      ClosedElsewhere(t.left, a, b);
      ClosedElsewhere(t.right, a, b);
    }
  }

  lemma SameWithin(t: Tree, u: Tree, a: set<nat>, b: set<nat>)
    requires Indices(u) <= Indices(t) && a * Indices(t) == b * Indices(t)
    ensures a * Indices(u) == b * Indices(u) && (u.index in a <==> u.index in b)
  {
    RootIsNode(u);
    assert forall i :: i in Indices(u) ==> (i in a <==> i in a * Indices(t)) && (i in b <==> i in b * Indices(t));
  }

  /** Adding the nodes of a way to a closed set that has the root keeps it closed. */
  lemma {:induction false} WayKeepsClosed(t: Tree, i: nat, kept: set<nat>)
    requires WellIndexed(t) && Closed(t, kept) && t.index in kept
    ensures Closed(t, kept + WayTo(t, i))
  {
    if t.Inner? {
      var child, pair, all := Toward(t, i), Aside(t, i), kept + WayTo(t, i);
      RootIsNode(child);
      RootIsNode(pair);
      WayIsBelow(child, i);
      RootAdded(child, kept);
      RootAdded(pair, kept);
      WayKeepsClosed(child, i, kept + {child.index});
      assert all * Indices(child) == (kept + {child.index} + WayTo(child, i)) * Indices(child);
      ClosedElsewhere(child, all, kept + {child.index} + WayTo(child, i));
      assert all * Indices(pair) == (kept + {pair.index}) * Indices(pair);
      ClosedElsewhere(pair, all, kept + {pair.index});
    }
  }

  lemma RootAdded(t: Tree, kept: set<nat>)
    requires WellIndexed(t) && Closed(t, kept)
    ensures Closed(t, kept + {t.index})
  {
    if t.Inner? {
      RootIsNode(t.left);
      RootIsNode(t.right);
      var all := kept + {t.index};
      assert all * Indices(t.left) == kept * Indices(t.left);
      assert all * Indices(t.right) == kept * Indices(t.right);
      ClosedElsewhere(t.left, all, kept);
      ClosedElsewhere(t.right, all, kept);
    }
  }
}
