/** Building a tree in a map from indices to nodes, x/oracle/types/merkletree.go. */
module MerkleBuild {
  import opened Common
  import opened Merkle
  import opened MerkleCollect
  import opened MerkleWalk
  import Decimal

  /** A node of the map: what hangs below it, and its hash if it is known. */
  datatype Node = Node(tree: Tree, hash: Option<Bytes>)

  type Nodes = map<nat, Node>

  /** The node of a tree; with the pieces of raw data its hash is known. */
  function NodeOf(sha: Bytes -> Bytes, src: Option<seq<Bytes>>, u: Tree): (n: Node) {
    Node(u, if src.Some? then Some(HashOf(sha, u, src.value)) else None)
  }

  /** Every node of the tree is filed under its own index. */
  ghost predicate Files(sha: Bytes -> Bytes, src: Option<seq<Bytes>>, t: Nodes, u: Tree) {
    forall x :: x in Indices(u) ==> x in t && t[x] == NodeOf(sha, src, NodeAt(u, x))
  }

  /** A layer whose first place has index `prev`, in a tree of `n` leaves. */
  ghost predicate LayerFine(layer: seq<Tree>, prev: nat, n: nat) {
    && layer != [] && LayerOk(layer, prev + |layer|)
    && (forall k, x :: 0 <= k < |layer| && x in Indices(layer[k]) ==> x < prev || x == prev + k)
    && (forall k :: 0 <= k < |layer| ==> if layer[k].Leaf? then layer[k].index < n else layer[k].index == prev + k >= n)
    && (if prev == 0 then layer == Leaves(n) else prev >= n && layer[0].Inner?)
  }

  lemma {:induction false} LeavesFine(n: nat)
    requires n > 0
    ensures LayerFine(Leaves(n), 0, n)
  {
    LeavesOk(n, 0);
  }

  lemma AboveFine(layer: seq<Tree>, prev: nat, n: nat)
    requires LayerFine(layer, prev, n) && |layer| > 1
    ensures LayerFine(Above(layer, prev + |layer|), prev + |layer|, n)
  {
    hide Indices, LayerOk, WellIndexed;
    var next := prev + |layer|;
    var up := Above(layer, next);
    AboveOk(layer, next);
    forall k, x | 0 <= k < |up| && x in Indices(up[k])
      ensures x < next || x == next + k
    {
      AboveAt(layer, next, k);
      InLayer(layer, next, 2 * k, x);
      if 2 * k + 1 < |layer| {
        InLayer(layer, next, 2 * k + 1, x);
      }
    }
  }

  lemma InLayer(layer: seq<Tree>, next: nat, k: nat, x: nat)
    requires LayerOk(layer, next) && k < |layer|
    ensures x in Indices(layer[k]) ==> x < next
  {
  }

  // --------------------------------------------------------------------- one layer

  /** The tree is filed in this place, and the nodes below it under their indices. */
  ghost predicate Placed(sha: Bytes -> Bytes, src: Option<seq<Bytes>>, t: Nodes, place: nat, u: Tree) {
    place in t && t[place] == NodeOf(sha, src, u) && Files(sha, src, t, u)
  }

  /** The first `c` places of the layer above are filed, and so are the places of the layer from
      `2 c` on, with everything below them. */
  ghost predicate Filing(sha: Bytes -> Bytes, src: Option<seq<Bytes>>, t: Nodes, layer: seq<Tree>, prev: nat, c: nat) {
    var next := prev + |layer|;
    var up := Above(layer, next);
    && c <= |up|
    && (forall j :: 0 <= j < c ==> Placed(sha, src, t, next + j, up[j]))
    && (forall k :: 2 * c <= k < |layer| ==> Placed(sha, src, t, prev + k, layer[k]))
    && (forall x :: x in t ==> x < next + c)
  }

  /** Only place `at` is new, and only place `gone` is given up. */
  predicate SameBut(t: Nodes, t': Nodes, at: nat, gone: Option<nat>) {
    && t'.Keys <= t.Keys + {at}
    && forall x :: x in t && x != at && gone != Some(x) ==> x in t' && t'[x] == t[x]
  }

  /** Nodes elsewhere do not matter. */
  lemma PlacedElsewhere(
    sha: Bytes -> Bytes, src: Option<seq<Bytes>>, t: Nodes, t': Nodes, place: nat, u: Tree, at: nat, gone: Option<nat>
  )
    requires Placed(sha, src, t, place, u) && SameBut(t, t', at, gone)
    requires place != at && at !in Indices(u) && (gone.Some? ==> place != gone.value && gone.value !in Indices(u))
    ensures Placed(sha, src, t', place, u)
  {
    hide NodeOf, NodeAt;
  }

  /** The place of a lifted node is not used below the places before it. */
  lemma LiftedApart(layer: seq<Tree>, prev: nat, n: nat, j: nat)
    requires LayerFine(layer, prev, n) && 2 * j + 1 < |layer| - 1 && layer[|layer| - 1].Inner?
    ensures prev + |layer| - 1 !in Indices(Above(layer, prev + |layer|)[j])
  {
    var next, last := prev + |layer|, |layer| - 1;
    AboveAt(layer, next, j);
    RootIsNode(layer[last]);
    ApartInLayer(layer, next, prev + last, 2 * j, last);
    ApartInLayer(layer, next, prev + last, 2 * j + 1, last);
  }

  /** Changing only the places of the next node above, and of the node that is lifted there. */
  lemma FilingElsewhere(
    sha: Bytes -> Bytes, src: Option<seq<Bytes>>, t: Nodes, t': Nodes, layer: seq<Tree>, prev: nat, n: nat, c: nat,
    gone: Option<nat>
  )
    requires LayerFine(layer, prev, n) && Filing(sha, src, t, layer, prev, c) && 2 * c < |layer|
    requires gone.Some? ==> 2 * c + 1 == |layer| && layer[2 * c].Inner? && gone.value == prev + 2 * c
    requires SameBut(t, t', prev + |layer| + c, gone)
    requires Placed(sha, src, t', prev + |layer| + c, Above(layer, prev + |layer|)[c])
    ensures Filing(sha, src, t', layer, prev, c + 1)
  {
    hide Indices, Placed, LayerFine, Above;
    var next := prev + |layer|;
    var up := Above(layer, next);
    forall j | 0 <= j < c
      ensures Placed(sha, src, t', next + j, up[j])
    {
      UpBound(layer, prev, n, j, next + c);
      if gone.Some? {
        LiftedApart(layer, prev, n, j);
      }
      PlacedElsewhere(sha, src, t, t', next + j, up[j], next + c, gone);
    }
    forall k | 2 * c + 2 <= k < |layer|
      ensures Placed(sha, src, t', prev + k, layer[k])
    {
      LowBound(layer, prev, n, k, next + c);
      PlacedElsewhere(sha, src, t, t', prev + k, layer[k], next + c, gone);
    }
  }

  lemma LowBound(layer: seq<Tree>, prev: nat, n: nat, k: nat, x: nat)
    requires LayerFine(layer, prev, n) && k < |layer| && x >= prev && x != prev + k
    ensures x !in Indices(layer[k])
  {
  }

  lemma UpBound(layer: seq<Tree>, prev: nat, n: nat, j: nat, x: nat)
    requires LayerFine(layer, prev, n) && 2 * j < |layer| && x > prev + |layer| + j
    ensures x !in Indices(Above(layer, prev + |layer|)[j])
  {
    AboveAt(layer, prev + |layer|, j);
  }

  lemma FilesPair(sha: Bytes -> Bytes, src: Option<seq<Bytes>>, t: Nodes, t': Nodes, u: Tree)
    requires u.Inner? && Files(sha, src, t, u.left) && Files(sha, src, t, u.right) && SameBut(t, t', u.index, None)
    requires u.index !in Indices(u.left) && u.index !in Indices(u.right)
    requires u.index in t' && t'[u.index] == NodeOf(sha, src, u)
    ensures Files(sha, src, t', u)
  {
    hide NodeOf;
  }

  /** The parent of two nodes is filed in the next place above. */
  lemma PairFiled(sha: Bytes -> Bytes, src: Option<seq<Bytes>>, t: Nodes, layer: seq<Tree>, prev: nat, n: nat, c: nat)
    requires LayerFine(layer, prev, n) && Filing(sha, src, t, layer, prev, c) && 2 * c + 1 < |layer|
    ensures var next := prev + |layer|;
            Filing(sha, src, t[next + c := NodeOf(sha, src, Above(layer, next)[c])], layer, prev, c + 1)
  {
    hide Files, NodeOf, LayerOk, Indices;
    var next := prev + |layer|;
    var u := Above(layer, next)[c];
    var t' := t[next + c := NodeOf(sha, src, u)];
    assert Placed(sha, src, t, prev + 2 * c, layer[2 * c]) && Placed(sha, src, t, prev + (2 * c + 1), layer[2 * c + 1]);
    FilesPair(sha, src, t, t', u);
    FilingElsewhere(sha, src, t, t', layer, prev, n, c, None);
  }

  lemma FilesLifted(sha: Bytes -> Bytes, src: Option<seq<Bytes>>, t: Nodes, t': Nodes, l: Tree, index: nat)
    requires l.Inner? && WellIndexed(l) && Files(sha, src, t, l) && SameBut(t, t', index, Some(l.index))
    requires index !in Indices(l) && index in t' && t'[index] == NodeOf(sha, src, Lift(l, index))
    ensures Files(sha, src, t', Lift(l, index))
  {
    hide NodeOf;
  }

  /** A node without a sibling is filed in the next place above; an inner node leaves its old place. */
  lemma LiftFiled(sha: Bytes -> Bytes, src: Option<seq<Bytes>>, t: Nodes, layer: seq<Tree>, prev: nat, n: nat, c: nat)
    requires LayerFine(layer, prev, n) && Filing(sha, src, t, layer, prev, c) && 2 * c + 1 == |layer|
    ensures var next, l := prev + |layer|, layer[2 * c];
            var t' := (if l.index >= n then t - {l.index} else t)[next + c := NodeOf(sha, src, Lift(l, next + c))];
            Filing(sha, src, t', layer, prev, c + 1)
  {
    hide NodeOf, Files;
    var next, l := prev + |layer|, layer[2 * c];
    var u := Lift(l, next + c);
    var t' := (if l.index >= n then t - {l.index} else t)[next + c := NodeOf(sha, src, u)];
    assert Placed(sha, src, t, prev + 2 * c, l);
    assert WellIndexed(l);
    if l.Inner? {
      FilesLifted(sha, src, t, t', l, next + c);
      FilingElsewhere(sha, src, t, t', layer, prev, n, c, Some(l.index));
    } else {
      FilesElsewhere(sha, src, t, t', l, next + c);
      FilingElsewhere(sha, src, t, t', layer, prev, n, c, None);
    }
  }

  lemma FilesElsewhere(sha: Bytes -> Bytes, src: Option<seq<Bytes>>, t: Nodes, t': Nodes, l: Tree, at: nat)
    requires Files(sha, src, t, l) && SameBut(t, t', at, None) && at !in Indices(l)
    ensures Files(sha, src, t', l)
  {
  }

  // ---------------------------------------------------------------- nothing but nodes

  /** The index is used below a place that is filed: the first `c` above, or those from `2 c` on. */
  ghost predicate Under(layer: seq<Tree>, next: nat, c: nat, y: nat)
    requires c <= |Above(layer, next)|
  {
    || (exists j :: 0 <= j < c && y in Indices(Above(layer, next)[j]))
    || (exists k :: 2 * c <= k < |layer| && y in Indices(layer[k]))
  }

  /** Every node in the map is used below a filed place, and only leaves have a second place. */
  ghost predicate Covers(t: Nodes, layer: seq<Tree>, prev: nat, n: nat, c: nat)
    requires c <= |Above(layer, prev + |layer|)|
  {
    forall x :: x in t ==>
      && (if t[x].tree.Inner? then t[x].tree.index == x else t[x].tree.index < n)
      && Under(layer, prev + |layer|, c, t[x].tree.index)
  }

  lemma UnderNext(layer: seq<Tree>, next: nat, c: nat, y: nat)
    requires 2 * c < |layer| && Under(layer, next, c, y)
    requires 2 * c + 1 == |layer| && layer[2 * c].Inner? ==> y != layer[2 * c].index
    ensures Under(layer, next, c + 1, y)
  {
    var up := Above(layer, next);
    if k :| 2 * c <= k < |layer| && y in Indices(layer[k]) {
      assert k < 2 * c + 2 ==> y in Indices(up[c]);
    }
  }

  lemma UnderNew(layer: seq<Tree>, next: nat, c: nat)
    requires 2 * c < |layer|
    ensures Under(layer, next, c + 1, Above(layer, next)[c].index)
  {
    RootIsNode(Above(layer, next)[c]);
  }

  lemma PairCovered(sha: Bytes -> Bytes, src: Option<seq<Bytes>>, t: Nodes, layer: seq<Tree>, prev: nat, n: nat, c: nat)
    requires 2 * c + 1 < |layer| && Covers(t, layer, prev, n, c)
    ensures var next := prev + |layer|;
            Covers(t[next + c := NodeOf(sha, src, Above(layer, next)[c])], layer, prev, n, c + 1)
  {
    hide Under;
    var next := prev + |layer|;
    UnderNew(layer, next, c);
    forall x | x in t
      ensures Under(layer, next, c + 1, t[x].tree.index)
    {
      UnderNext(layer, next, c, t[x].tree.index);
    }
  }

  lemma LiftCovered(sha: Bytes -> Bytes, src: Option<seq<Bytes>>, t: Nodes, layer: seq<Tree>, prev: nat, n: nat, c: nat)
    requires LayerFine(layer, prev, n) && 2 * c + 1 == |layer| && Covers(t, layer, prev, n, c)
    ensures var next, l := prev + |layer|, layer[2 * c];
            var t' := (if l.index >= n then t - {l.index} else t)[next + c := NodeOf(sha, src, Lift(l, next + c))];
            Covers(t', layer, prev, n, c + 1)
  {
    hide Under, LayerOk;
    var next, l := prev + |layer|, layer[2 * c];
    UnderNew(layer, next, c);
    forall x | x in t && (l.Inner? ==> x != l.index)
      ensures Under(layer, next, c + 1, t[x].tree.index)
    {
      UnderNext(layer, next, c, t[x].tree.index);
    }
  }

  lemma CoversNext(t: Nodes, layer: seq<Tree>, prev: nat, n: nat)
    requires |layer| > 1 && Covers(t, layer, prev, n, (|layer| + 1) / 2)
    ensures Covers(t, Above(layer, prev + |layer|), prev + |layer|, n, 0)
  {
    hide Above, Indices;
    var next: nat := prev + |layer|;
    var up := Above(layer, next);
    forall x | x in t
      ensures Under(up, next + |up|, 0, t[x].tree.index)
    {
      assert Under(layer, next, |up|, t[x].tree.index);
    }
  }

  // ------------------------------------------------------------------------ pieces

  const MaxUint32: nat := 0xFFFF_FFFF

  type Uint32 = n: nat | n <= MaxUint32

  /** The `i`-th piece of raw data. */
  function PieceAt(raw: Bytes, pieceSize: nat, i: nat): (piece: Bytes)
    requires i * pieceSize < |raw|
  {
    raw[i * pieceSize..if (i + 1) * pieceSize < |raw| then (i + 1) * pieceSize else |raw|]
  }

  /** The leaf count `validateInput` computes. */
  function LeafCountOf(size: nat, pieceSize: nat): (n: nat)
    requires pieceSize > 0
  {
    size / pieceSize + if size % pieceSize > 0 then 1 else 0
  }

  lemma Times(i: nat, k: nat)
    requires i > 0
    ensures i * k == k + (i - 1) * k && (i + 1) * k == k + i * k
  {
  }

  lemma TakeOff(size: nat, k: nat)
    requires size > k > 0
    ensures LeafCountOf(size, k) == 1 + LeafCountOf(size - k, k)
  {
    var q, r := (size - k) / k, (size - k) % k;
    assert size == (q + 1) * k + r;
    Decimal.QuotientIsUnique(size, k, q + 1, r);
  }

  /** Cutting gives as many pieces as counted, and each is the slice at its place. */
  lemma {:induction false} CutIsSlices(raw: Bytes, pieceSize: nat, i: nat)
    requires pieceSize > 0 && raw != []
    ensures |Cut(raw, pieceSize)| == LeafCountOf(|raw|, pieceSize)
    ensures i < |Cut(raw, pieceSize)| ==> i * pieceSize < |raw| && Cut(raw, pieceSize)[i] == PieceAt(raw, pieceSize, i)
    decreases |raw|
  {
    if |raw| > pieceSize {
      var rest := raw[pieceSize..];
      TakeOff(|raw|, pieceSize);
      CutIsSlices(rest, pieceSize, if i > 0 then i - 1 else 0);
      if i > 0 {
        Times(i, pieceSize);
        if i - 1 < |Cut(rest, pieceSize)| {
          SliceOfRest(raw, pieceSize, i);
        }
      }
    } else {
      OnePieceCount(|raw|, pieceSize);
    }
  }

  lemma OnePieceCount(size: nat, k: nat)
    requires 0 < size <= k
    ensures LeafCountOf(size, k) == 1
  {
  }

  lemma SliceOfRest(raw: Bytes, pieceSize: nat, i: nat)
    requires 0 < pieceSize < |raw| && i > 0 && (i - 1) * pieceSize < |raw| - pieceSize
    ensures i * pieceSize < |raw| && PieceAt(raw[pieceSize..], pieceSize, i - 1) == PieceAt(raw, pieceSize, i)
  {
    Times(i, pieceSize);
    var rest, a := raw[pieceSize..], (i - 1) * pieceSize;
    var b := if a + pieceSize < |rest| then a + pieceSize else |rest|;
    assert rest[a..b] == raw[pieceSize + a..pieceSize + b];
  }

  /** The end of the `i`-th piece can be computed in 32 bits. */
  predicate Fits(pieceSize: nat, i: nat) {
    (i + 1) * pieceSize <= MaxUint32
  }

  /** The slice expression for the `i`-th piece, whose bounds are computed in 32 bits; `None` is its panic. */
  function Slice(raw: Bytes, pieceSize: nat, i: nat): (piece: Option<Bytes>) {
    var lo, hi := i * pieceSize % (MaxUint32 + 1), (i + 1) * pieceSize % (MaxUint32 + 1);
    var end := if hi < |raw| then hi else |raw|;
    if lo <= end then Some(raw[lo..end]) else None
  }

  lemma WrapOnce(x: nat)
    requires x < 2 * (MaxUint32 + 1)
    ensures x % (MaxUint32 + 1) == if x <= MaxUint32 then x else x - (MaxUint32 + 1)
  {
  }

  /** The slice is the piece, and panics exactly if the end of the piece does not fit 32 bits. */
  lemma SliceIsPiece(raw: Bytes, pieceSize: Uint32, i: nat)
    requires pieceSize > 0 && i * pieceSize < |raw| <= MaxUint32
    ensures Slice(raw, pieceSize, i) == if Fits(pieceSize, i) then Some(PieceAt(raw, pieceSize, i)) else None
  {
    assert (i + 1) * pieceSize == i * pieceSize + pieceSize;
    WrapOnce(i * pieceSize);
    WrapOnce((i + 1) * pieceSize);
  }

  /** Only the last piece can end beyond 32 bits. */
  lemma FitsBeforeLast(raw: Bytes, pieceSize: Uint32, n: nat, i: nat)
    requires pieceSize > 0 && 0 < |raw| <= MaxUint32 && n == LeafCountOf(|raw|, pieceSize) && i < n
    ensures Fits(pieceSize, i) <==> i + 1 < n || n * pieceSize <= MaxUint32
  {
    if i + 1 < n {
      CutIsSlices(raw, pieceSize, i + 1);
    }
  }

  // ----------------------------------------------------------------------- building

  datatype Fetched = There(node: Node) | TooFar | Panics

  /** `getOrCreateNode`: a missing node is made a leaf, `TooFar` is its error. */
  function GetOrCreateNode(
    sha: Bytes -> Bytes, t: Nodes, idx: nat, i: nat, pieceSize: nat, raw: Option<Bytes>
  ): (n: Fetched)
  {
    if idx in t then There(t[idx])
    else if raw.None? then There(Node(Leaf(idx), None))
    else if i * pieceSize % (MaxUint32 + 1) >= |raw.value| then TooFar
    else
      match Slice(raw.value, pieceSize, i)
      case None => Panics
      case Some(piece) => There(Node(Leaf(idx), Some(sha(piece))))
  }

  /** The pieces behind the leaves, if there is raw data. */
  ghost function Source(raw: Option<Bytes>, pieceSize: nat): (src: Option<seq<Bytes>>)
    requires raw.Some? ==> pieceSize > 0 && raw.value != []
  {
    if raw.None? then None else Some(Cut(raw.value, pieceSize))
  }

  ghost predicate InputOk(leafCount: nat, pieceSize: Uint32, raw: Option<Bytes>) {
    raw.Some? ==> pieceSize > 0 && 0 < |raw.value| <= MaxUint32 && leafCount == LeafCountOf(|raw.value|, pieceSize)
  }

  /** Whether making the leaf in place `i` of the layer panics. */
  ghost predicate Breaks(prev: nat, i: nat, pieceSize: nat, raw: Option<Bytes>) {
    prev == 0 && raw.Some? && !Fits(pieceSize, i)
  }

  /** The leaves of the bottom layer that are not made yet. */
  ghost function Pending(prev: nat, i: nat, n: nat): (s: set<nat>)
    ensures forall k :: k in s <==> prev == 0 && i <= k < n
    decreases n - i
  {
    if prev > 0 || i >= n then {} else {i} + Pending(prev, i + 1, n)
  }

  /** In the bottom layer a leaf is made, in the others the node is there. */
  lemma Got(
    sha: Bytes -> Bytes, t: Nodes, v: Nodes, layer: seq<Tree>, prev: nat, n: nat, i: nat, pieceSize: Uint32,
    raw: Option<Bytes>
  )
    requires InputOk(n, pieceSize, raw) && LayerFine(layer, prev, n) && i < |layer|
    requires Placed(sha, Source(raw, pieceSize), v, prev + i, layer[i]) && t == v - Pending(prev, i, n)
    ensures GetOrCreateNode(sha, t, prev + i, i, pieceSize, raw)
         == if Breaks(prev, i, pieceSize, raw) then Panics else There(NodeOf(sha, Source(raw, pieceSize), layer[i]))
    ensures t[prev + i := NodeOf(sha, Source(raw, pieceSize), layer[i])] == v - Pending(prev, i + 1, n)
  {
    hide PieceAt, Slice, Fits, LeafCountOf;
    if prev == 0 && raw.Some? {
      CutIsSlices(raw.value, pieceSize, i);
      SliceIsPiece(raw.value, pieceSize, i);
      WrapOnce(i * pieceSize);
    }
  }

  /** The pieces read with the first `i` places of the bottom layer. */
  ghost function PiecesRead(raw: Option<Bytes>, pieceSize: nat, prev: nat, i: nat): (ps: seq<Bytes>)
    requires raw.Some? ==> pieceSize > 0 && raw.value != []
  {
    if prev > 0 || raw.None? then []
    else Cut(raw.value, pieceSize)[..if i < |Cut(raw.value, pieceSize)| then i else |Cut(raw.value, pieceSize)|]
  }

  lemma NextPiece(n: nat, raw: Option<Bytes>, pieceSize: Uint32, i: nat)
    requires InputOk(n, pieceSize, raw) && raw.Some? && i < n
    ensures i * pieceSize < |raw.value|
    ensures Fits(pieceSize, i) ==>
              && Slice(raw.value, pieceSize, i).Some?
              && PiecesRead(raw, pieceSize, 0, i) + [Slice(raw.value, pieceSize, i).value]
                 == PiecesRead(raw, pieceSize, 0, i + 1)
  {
    CutIsSlices(raw.value, pieceSize, i);
    SliceIsPiece(raw.value, pieceSize, i);
  }

  lemma NothingRead(raw: Option<Bytes>, pieceSize: nat, prev: nat)
    requires raw.Some? ==> pieceSize > 0 && raw.value != []
    ensures PiecesRead(raw, pieceSize, prev, 0) == []
  {
  }

  lemma AllRead(n: nat, raw: Option<Bytes>, pieceSize: Uint32, prev: nat, layer: seq<Tree>)
    requires InputOk(n, pieceSize, raw) && LayerFine(layer, prev, n)
    ensures PiecesRead(raw, pieceSize, prev, |layer| + 1) == PiecesRead(raw, pieceSize, prev, |layer|)
    ensures prev == 0 ==> |layer| == n
  {
    if raw.Some? {
      CutIsSlices(raw.value, pieceSize, 0);
    }
  }

  /** The node in a place, and in the bottom layer its piece, unless slicing panics. */
  method Fetch(
    sha: Bytes -> Bytes, nodes: Nodes, prev: nat, i: nat, pieceSize: Uint32, raw: Option<Bytes>, read: seq<Bytes>,
    ghost layer: seq<Tree>, ghost n: nat, ghost v: Nodes
  ) returns (t: Nodes, pieces: seq<Bytes>, node: Node, panicked: bool)
    requires InputOk(n, pieceSize, raw) && LayerFine(layer, prev, n) && i < |layer|
    requires Placed(sha, Source(raw, pieceSize), v, prev + i, layer[i]) && nodes == v - Pending(prev, i, n)
    requires read == PiecesRead(raw, pieceSize, prev, i)
    ensures panicked <==> Breaks(prev, i, pieceSize, raw)
    ensures !panicked ==> node == NodeOf(sha, Source(raw, pieceSize), layer[i])
    ensures !panicked ==> t == v - Pending(prev, i + 1, n) && pieces == PiecesRead(raw, pieceSize, prev, i + 1)
  {
    hide NodeOf, GetOrCreateNode, Placed, Slice, Fits, LeafCountOf;
    Got(sha, nodes, v, layer, prev, n, i, pieceSize, raw);
    var got := GetOrCreateNode(sha, nodes, prev + i, i, pieceSize, raw);
    if got.Panics? {
      return nodes, read, Node(Leaf(i), None), true;
    }
    node, panicked := got.node, false;
    t, pieces := nodes[prev + i := node], read;
    if raw.Some? && prev == 0 {
      NextPiece(n, raw, pieceSize, i);
      pieces := pieces + [Slice(raw.value, pieceSize, i).value];
    }
  }

  lemma FreePlace(sha: Bytes -> Bytes, src: Option<seq<Bytes>>, v: Nodes, layer: seq<Tree>, prev: nat, n: nat, c: nat)
    requires LayerFine(layer, prev, n) && Filing(sha, src, v, layer, prev, c) && 2 * c < |layer|
    ensures prev + |layer| + c !in v && prev + |layer| >= n
    ensures Placed(sha, src, v, prev + 2 * c, layer[2 * c])
    ensures 2 * c + 1 < |layer| ==> Placed(sha, src, v, prev + 2 * c + 1, layer[2 * c + 1])
  {
    hide Placed, Above;
    assert 2 * c + 1 < |layer| ==> Placed(sha, src, v, prev + (2 * c + 1), layer[2 * c + 1]);
  }

  lemma ParentNode(sha: Bytes -> Bytes, src: Option<seq<Bytes>>, layer: seq<Tree>, next: nat, c: nat)
    requires 2 * c + 1 < |layer|
    ensures var l, r := NodeOf(sha, src, layer[2 * c]), NodeOf(sha, src, layer[2 * c + 1]);
            && (src.Some? <==> l.hash.Some?) && (src.Some? <==> r.hash.Some?)
            && NodeOf(sha, src, Above(layer, next)[c])
               == Node(Inner(next + c, l.tree, r.tree), if src.Some? then Some(sha(l.hash.value + r.hash.value)) else None)
  {
  }

  lemma LiftedNode(sha: Bytes -> Bytes, src: Option<seq<Bytes>>, u: Tree, index: nat)
    ensures NodeOf(sha, src, Lift(u, index)) == Node(Lift(u, index), NodeOf(sha, src, u).hash)
    ensures NodeOf(sha, src, u).tree == u
  {
  }

  lemma LiftedPlace(layer: seq<Tree>, prev: nat, n: nat, k: nat)
    requires LayerFine(layer, prev, n) && k < |layer|
    ensures layer[k].index >= n ==> prev > 0
  {
    assert prev == 0 ==> layer[k] == Leaf(k);
  }

  /** The state of the inner loop at place `i`: `v` is the map with all leaves made. */
  ghost predicate InLoop(
    sha: Bytes -> Bytes, src: Option<seq<Bytes>>, t: Nodes, v: Nodes, layer: seq<Tree>, prev: nat, n: nat, i: nat
  )
  {
    && LayerFine(layer, prev, n) && i % 2 == 0 && Filing(sha, src, v, layer, prev, i / 2)
    && Covers(v, layer, prev, n, i / 2) && t == v - Pending(prev, i, n)
  }

  lemma AddedOutside(t: Nodes, v: Nodes, pending: set<nat>, place: nat, node: Node)
    requires t == v - pending && place !in pending
    ensures t[place := node] == v[place := node] - pending
  {
  }

  /** `linkNodes` and `createParentNode`. */
  method FilePair(
    sha: Bytes -> Bytes, nodes: Nodes, prev: nat, i: nat, count: nat, l: Node, r: Node, fromRawData: bool,
    ghost src: Option<seq<Bytes>>, ghost layer: seq<Tree>, ghost n: nat, ghost v: Nodes
  ) returns (t: Nodes, ghost v': Nodes)
    requires LayerFine(layer, prev, n) && i % 2 == 0 && Filing(sha, src, v, layer, prev, i / 2)
    requires i / 2 <= |Above(layer, prev + |layer|)| && Covers(v, layer, prev, n, i / 2)
    requires nodes == v - Pending(prev, i + 2, n) && |layer| == count && i + 1 < count && (fromRawData <==> src.Some?)
    requires l == NodeOf(sha, src, layer[i]) && r == NodeOf(sha, src, layer[i + 1])
    ensures InLoop(sha, src, t, v', layer, prev, n, i + 2)
  {
    hide NodeOf, LayerFine, Filing, Above, Placed, Covers;
    var parentIdx := i / 2 + prev + count;
    FreePlace(sha, src, v, layer, prev, n, i / 2);
    ParentNode(sha, src, layer, prev + count, i / 2);
    PairFiled(sha, src, v, layer, prev, n, i / 2);
    PairCovered(sha, src, v, layer, prev, n, i / 2);
    v' := v[parentIdx := NodeOf(sha, src, Above(layer, prev + count)[i / 2])];
    t := nodes;
    if parentIdx !in t {
      t := t[parentIdx := Node(Inner(parentIdx, l.tree, r.tree),
                               if fromRawData then Some(sha(l.hash.value + r.hash.value)) else None)];
    }
    AddedOutside(nodes, v, Pending(prev, i + 2, n), parentIdx, v'[parentIdx]);
  }

  /** `liftSingleNode`; the place it lifts to is free. */
  method FileSingle(
    sha: Bytes -> Bytes, nodes: Nodes, prev: nat, i: nat, count: nat, n: nat, l: Node,
    ghost src: Option<seq<Bytes>>, ghost layer: seq<Tree>, ghost v: Nodes
  ) returns (t: Nodes, ghost v': Nodes)
    requires LayerFine(layer, prev, n) && i % 2 == 0 && Filing(sha, src, v, layer, prev, i / 2)
    requires i / 2 <= |Above(layer, prev + |layer|)| && Covers(v, layer, prev, n, i / 2)
    requires nodes == v - Pending(prev, i + 1, n) && |layer| == count == i + 1
    requires l == NodeOf(sha, src, layer[i])
    ensures InLoop(sha, src, t, v', layer, prev, n, i + 2)
  {
    hide NodeOf, LayerFine, Filing, Above, Placed, Lift, Covers;
    var liftedNodeIndex := i / 2 + prev + count;
    FreePlace(sha, src, v, layer, prev, n, i / 2);
    assert liftedNodeIndex !in nodes;
    LiftedNode(sha, src, layer[i], liftedNodeIndex);
    LiftFiled(sha, src, v, layer, prev, n, i / 2);
    LiftCovered(sha, src, v, layer, prev, n, i / 2);
    LiftedPlace(layer, prev, n, i);
    ghost var rest: Nodes := if layer[i].index >= n then v - {layer[i].index} else v;
    v' := rest[liftedNodeIndex := NodeOf(sha, src, Lift(layer[i], liftedNodeIndex))];
    t := nodes;
    if l.tree.index >= n {
      t := t - {l.tree.index};
    }
    assert t == rest - Pending(prev, i + 2, n);
    AddedOutside(t, rest, Pending(prev, i + 2, n), liftedNodeIndex, v'[liftedNodeIndex]);
    t := t[liftedNodeIndex := Node(Lift(l.tree, liftedNodeIndex), l.hash)];
  }

  /** One round of the outer loop of `buildTreeNodes`. Neither of its errors can occur: every node it
      looks up above the bottom layer is there, and every place it lifts a node to is free. It panics
      exactly if the end of the last piece does not fit 32 bits. */
  method BuildLayer(
    sha: Bytes -> Bytes, nodes: Nodes, leafCount: nat, prevLayersCount: nat, originalLeafCount: nat,
    pieceSize: Uint32, raw: Option<Bytes>, ghost layer: seq<Tree>, ghost all: Nodes
  ) returns (t: Nodes, pieces: seq<Bytes>, panicked: bool)
    requires InputOk(originalLeafCount, pieceSize, raw) && |layer| == leafCount > 1
    requires InLoop(sha, Source(raw, pieceSize), nodes, all, layer, prevLayersCount, originalLeafCount, 0)
    ensures panicked <==> prevLayersCount == 0 && raw.Some? && originalLeafCount * pieceSize > MaxUint32
    ensures !panicked ==> Filing(sha, Source(raw, pieceSize), t, layer, prevLayersCount, (leafCount + 1) / 2)
    ensures !panicked ==> Covers(t, layer, prevLayersCount, originalLeafCount, (leafCount + 1) / 2)
    ensures !panicked ==> pieces == PiecesRead(raw, pieceSize, prevLayersCount, leafCount)
  {
    hide NodeOf, Cut, LayerFine, Filing, GetOrCreateNode, PiecesRead, Above, Lift, Source, Placed, Covers, Fits, LeafCountOf;
    t, pieces, panicked := nodes, [], false;
    ghost var v: Nodes := all;
    ghost var src := Source(raw, pieceSize);
    var i := 0;
    NothingRead(raw, pieceSize, prevLayersCount);
    AllRead(originalLeafCount, raw, pieceSize, prevLayersCount, layer);
    while i < leafCount
      invariant !panicked && i <= leafCount + 1
      invariant InLoop(sha, src, t, v, layer, prevLayersCount, originalLeafCount, i)
      invariant pieces == PiecesRead(raw, pieceSize, prevLayersCount, if i <= leafCount then i else leafCount)
      invariant i >= leafCount ==> !Breaks(prevLayersCount, leafCount - 1, pieceSize, raw)
      decreases leafCount - i
    {
      FreePlace(sha, src, v, layer, prevLayersCount, originalLeafCount, i / 2);
      var l, r;
      t, pieces, l, panicked := Fetch(sha, t, prevLayersCount, i, pieceSize, raw, pieces, layer, originalLeafCount, v);
      if panicked {
        BreaksAtLast(raw, pieceSize, prevLayersCount, originalLeafCount, i);
        return;
      }
      if i + 1 < leafCount {
        t, pieces, r, panicked :=
          Fetch(sha, t, prevLayersCount, i + 1, pieceSize, raw, pieces, layer, originalLeafCount, v);
        if panicked {
          BreaksAtLast(raw, pieceSize, prevLayersCount, originalLeafCount, i + 1);
          return;
        }
        SourceSome(raw, pieceSize);
        t, v := FilePair(sha, t, prevLayersCount, i, leafCount, l, r, raw.Some?, src, layer, originalLeafCount, v);
      } else {
        t, v := FileSingle(sha, t, prevLayersCount, i, leafCount, originalLeafCount, l, src, layer, v);
      }
      i := i + 2;
    }
    BreaksAtLast(raw, pieceSize, prevLayersCount, originalLeafCount, leafCount - 1);
    assert t == v;
  }

  lemma BreaksAtLast(raw: Option<Bytes>, pieceSize: Uint32, prev: nat, n: nat, i: nat)
    requires InputOk(n, pieceSize, raw) && (prev == 0 ==> i < n)
    ensures Breaks(prev, i, pieceSize, raw) ==> n * pieceSize > MaxUint32
    ensures prev == 0 && raw.Some? && i + 1 == n && n * pieceSize > MaxUint32 ==> Breaks(prev, i, pieceSize, raw)
  {
    if prev == 0 && raw.Some? {
      FitsBeforeLast(raw.value, pieceSize, n, i);
    }
  }

  lemma SourceSome(raw: Option<Bytes>, pieceSize: nat)
    requires raw.Some? ==> pieceSize > 0 && raw.value != []
    ensures Source(raw, pieceSize).Some? <==> raw.Some?
  {
  }

  /** The map with all leaves and nothing else. */
  ghost function AllLeaves(sha: Bytes -> Bytes, src: Option<seq<Bytes>>, n: nat): (v: Nodes) {
    map k: nat | k < n :: NodeOf(sha, src, Leaf(k))
  }

  lemma BottomLayer(sha: Bytes -> Bytes, src: Option<seq<Bytes>>, n: nat)
    requires n > 1
    ensures InLoop(sha, src, map[], AllLeaves(sha, src, n), Leaves(n), 0, n, 0)
  {
    hide NodeOf, Above, Covers, LayerFine;
    LeavesFine(n);
    var v: Nodes, t: Nodes := AllLeaves(sha, src, n), map[];
    assert t == v - Pending(0, 0, n);
    assert forall k :: 0 <= k < n ==> Files(sha, src, v, Leaf(k));
    assert forall k :: 0 <= k < n ==> Placed(sha, src, v, 0 + k, Leaves(n)[k]);
    LeavesCovered(sha, src, n);
  }

  lemma LeavesCovered(sha: Bytes -> Bytes, src: Option<seq<Bytes>>, n: nat)
    requires n > 1
    ensures Covers(AllLeaves(sha, src, n), Leaves(n), 0, n, 0)
  {
    forall x: nat | x < n
      ensures Under(Leaves(n), n, 0, x)
    {
      assert x in Indices(Leaves(n)[x]);
    }
  }

  lemma NothingPending(t: Nodes, prev: nat, n: nat)
    requires prev > 0
    ensures t - Pending(prev, 0, n) == t
  {
  }

  lemma FilingNext(sha: Bytes -> Bytes, src: Option<seq<Bytes>>, t: Nodes, layer: seq<Tree>, prev: nat)
    requires |layer| > 1 && Filing(sha, src, t, layer, prev, (|layer| + 1) / 2)
    ensures Filing(sha, src, t, Above(layer, prev + |layer|), prev + |layer|, 0)
  {
    hide Placed, NodeOf;
  }

  lemma NextLayer(
    sha: Bytes -> Bytes, src: Option<seq<Bytes>>, before: Nodes, all: Nodes, t: Nodes, layer: seq<Tree>, prev: nat, n: nat
  )
    requires InLoop(sha, src, before, all, layer, prev, n, 0) && |layer| > 1
    requires Filing(sha, src, t, layer, prev, (|layer| + 1) / 2) && Covers(t, layer, prev, n, (|layer| + 1) / 2)
    ensures InLoop(sha, src, t, t, Above(layer, prev + |layer|), prev + |layer|, n, 0)
  {
    hide Placed, LayerFine, NodeOf, Above;
    var next: nat := prev + |layer|;
    AboveFine(layer, prev, n);
    NothingPending(t, next, n);
    FilingNext(sha, src, t, layer, prev);
    CoversNext(t, layer, prev, n);
  }

  /** `buildTreeNodes`: every node of the tree ends up in the map under its own index, with its hash
      if there is raw data, and nothing else does; the returned index is the root's; and the pieces are
      cut in order. */
  method BuildTreeNodes(sha: Bytes -> Bytes, leafCount: nat, pieceSize: Uint32, raw: Option<Bytes>)
    returns (t: Nodes, rootIndex: nat, pieces: seq<Bytes>, panicked: bool)
    requires InputOk(leafCount, pieceSize, raw)
    ensures panicked <==> leafCount > 1 && raw.Some? && leafCount * pieceSize > MaxUint32
    ensures leafCount <= 1 ==> t == map[] && rootIndex == 0 && pieces == []
    ensures leafCount > 1 && !panicked ==> rootIndex == Shape(leafCount).index
    ensures leafCount > 1 && !panicked ==> Placed(sha, Source(raw, pieceSize), t, rootIndex, Shape(leafCount))
    ensures leafCount > 1 && !panicked ==> forall x :: x in t ==> t[x].tree.index in Indices(Shape(leafCount))
    ensures leafCount > 1 && !panicked && raw.Some? ==> pieces == Cut(raw.value, pieceSize)
  {
    hide NodeOf, Cut, Filing, Above, Source, Placed, InLoop, LayerFine, Shape, Build;
    hide AllLeaves, Leaves, PiecesRead, Covers, Indices, LeafCountOf;
    t, rootIndex, pieces, panicked := map[], 0, [], false;
    if leafCount <= 1 {
      return;
    }
    ghost var src, layer := Source(raw, pieceSize), Leaves(leafCount);
    ghost var v := AllLeaves(sha, src, leafCount);
    BottomLayer(sha, src, leafCount);
    ShapeIsBuilt(leafCount);
    var count := leafCount;
    while count > 1
      invariant !panicked && |layer| == count > 0 && InLoop(sha, src, t, v, layer, rootIndex, leafCount, 0)
      invariant Build(layer, rootIndex) == Shape(leafCount)
      invariant rootIndex > 0 ==> (raw.Some? ==> leafCount * pieceSize <= MaxUint32 && pieces == Cut(raw.value, pieceSize))
    {
      var up, read;
      up, read, panicked := BuildLayer(sha, t, count, rootIndex, leafCount, pieceSize, raw, layer, v);
      if panicked {
        return;
      }
      NextLayer(sha, src, t, v, up, layer, rootIndex, leafCount);
      BuildNext(layer, rootIndex);
      if rootIndex == 0 {
        WholeRead(sha, src, t, v, leafCount, raw, pieceSize, count, layer);
        pieces := read;
      }
      t, v := up, up;
      rootIndex := rootIndex + count;
      layer := Above(layer, rootIndex);
      count := count / 2 + count % 2;
    }
    RootPlaced(sha, src, t, v, layer, rootIndex, leafCount);
  }

  lemma ShapeIsBuilt(n: nat)
    requires n > 0
    ensures Leaves(n) != [] && Shape(n) == Build(Leaves(n), 0)
  {
  }

  lemma BuildNext(layer: seq<Tree>, prev: nat)
    requires |layer| > 1
    ensures Build(Above(layer, prev + |layer|), prev + |layer|) == Build(layer, prev)
  {
  }

  lemma WholeRead(
    sha: Bytes -> Bytes, src: Option<seq<Bytes>>, t: Nodes, v: Nodes,
    n: nat, raw: Option<Bytes>, pieceSize: Uint32, count: nat, layer: seq<Tree>
  )
    requires InputOk(n, pieceSize, raw) && InLoop(sha, src, t, v, layer, 0, n, 0) && |layer| == count
    ensures raw.Some? ==> PiecesRead(raw, pieceSize, 0, count) == Cut(raw.value, pieceSize)
  {
    if raw.Some? {
      CutIsSlices(raw.value, pieceSize, 0);
    }
  }

  lemma RootPlaced(sha: Bytes -> Bytes, src: Option<seq<Bytes>>, t: Nodes, v: Nodes, layer: seq<Tree>, prev: nat, n: nat)
    requires InLoop(sha, src, t, v, layer, prev, n, 0) && |layer| == 1 && n > 1
    ensures layer[0].index == prev > 0 && Placed(sha, src, t, prev, layer[0]) && Build(layer, prev) == layer[0]
    ensures forall x :: x in t ==> t[x].tree.index in Indices(layer[0])
  {
    hide Placed, Above, Indices;
    assert Placed(sha, src, v, prev + 0, layer[0]);
    assert prev == 0 ==> |Leaves(n)| == 1;
    NothingPending(v, prev, n);
  }

  // ------------------------------------------------------------------ constructors

  datatype Derived = Failed | Panicked | Derived(root: Bytes, pieces: seq<Bytes>)

  /** `DeriveMT`: fails on a piece size of zero, on no data and on data of 2^32 bytes or more; panics if
      there are several pieces and the end of the last one does not fit 32 bits; else the root is the one
      the data is committed by. */
  method DeriveMT(sha: Bytes -> Bytes, pieceSize: Uint32, rawData: Bytes) returns (r: Derived)
    ensures r.Failed? <==> pieceSize == 0 || rawData == [] || |rawData| > MaxUint32
    ensures r.Panicked? <==>
              && pieceSize > 0 && rawData != [] && |rawData| <= MaxUint32
              && var n := LeafCountOf(|rawData|, pieceSize); n > 1 && n * pieceSize > MaxUint32
    ensures r.Derived? ==> r.root == RootOf(sha, rawData, pieceSize) && r.pieces == Cut(rawData, pieceSize)
  {
    if pieceSize == 0 || |rawData| == 0 || |rawData| > MaxUint32 {
      return Failed;
    }
    var leafCount := LeafCountOf(|rawData|, pieceSize);
    CutIsSlices(rawData, pieceSize, 0);
    if leafCount == 1 {
      SinglePiece(sha, rawData, pieceSize);
      return Derived(sha(rawData), [rawData]);
    }
    hide Cut, Shape, HashOf, LeafCountOf;
    var t, rootIndex, pieces, panicked := BuildTreeNodes(sha, leafCount, pieceSize, Some(rawData));
    assert |Cut(rawData, pieceSize)| > 1;
    if panicked {
      return Panicked;
    }
    return Derived(t[rootIndex].hash.value, pieces);
  }

  lemma SinglePiece(sha: Bytes -> Bytes, raw: Bytes, pieceSize: nat)
    requires pieceSize > 0 && raw != [] && |Cut(raw, pieceSize)| == 1
    ensures Cut(raw, pieceSize) == [raw] && RootOf(sha, raw, pieceSize) == sha(raw)
  {
    assert Leaves(1)[0] == Leaf(0);
  }

  /** `NewMT`: fails on a piece size of zero or a root that is not a digest, and dereferences nil if
      there are no leaves. */
  method NewMT(sha: Bytes -> Bytes, pieceSize: Uint32, leafCount: nat, root: Bytes)
    returns (m: MerkleTree?, panicked: bool)
    ensures m == null <==> pieceSize == 0 || |root| != 32 || leafCount == 0
    ensures panicked <==> pieceSize != 0 && |root| == 32 && leafCount == 0
    ensures m != null ==> fresh(m) && m.Ok() && m.Whole() && m.State() == Start(leafCount, root) && m.rawData == []
    ensures m != null ==> m.sha == sha && m.leafCount == leafCount && m.pieceSize == pieceSize
  {
    if pieceSize == 0 || |root| != 32 {
      return null, false;
    }
    var places: map<nat, nat> := map[0 := 0];
    if leafCount == 1 {
      OnePlace();
    } else {
      var t, rootIndex, _, _ := BuildTreeNodes(sha, leafCount, pieceSize, None);
      if rootIndex !in t {
        return null, true;
      }
      places := map x | x in t :: t[x].tree.index;
      PlacesOfNodes(sha, Source(None, pieceSize), t, leafCount);
    }
    m := new MerkleTree(sha, pieceSize, leafCount, root, places);
    return m, false;
  }

  lemma OnePlace()
    ensures PlacesOk(1, map[0 := 0])
  {
    assert Leaves(1)[0] == Leaf(0);
  }

  lemma {:induction false} FoundByIndex(t: Tree, x: nat)
    requires x in Indices(t)
    ensures NodeAt(t, x).index == x
  {
    if t.Inner? && t.index != x {
      if x in Indices(t.left) {
        FoundByIndex(t.left, x);
      } else {
        FoundByIndex(t.right, x);
      }
    }
  }

  lemma PlacesOfNodes(sha: Bytes -> Bytes, src: Option<seq<Bytes>>, t: Nodes, leafCount: nat)
    requires leafCount > 1 && Files(sha, src, t, Shape(leafCount))
    requires forall x :: x in t ==> t[x].tree.index in Indices(Shape(leafCount))
    ensures PlacesOk(leafCount, map x | x in t :: t[x].tree.index)
  {
    hide Shape;
    forall x | x in Indices(Shape(leafCount))
      ensures x in t && t[x].tree.index == x
    {
      FoundByIndex(Shape(leafCount), x);
    }
  }
}
