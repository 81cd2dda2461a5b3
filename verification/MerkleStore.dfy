/** The proof nodes of a tree in the store, x/oracle/keeper/two_phases.go. */
module MerkleStore {
  import opened Common
  import opened OracleTx
  import opened Order
  import opened Merkle
  import opened MerkleCollect
  import opened MerkleRecovery
  import opened MerkleWalk
  import opened MerkleBuild

  predicate ByIndex(m: HashNode, n: HashNode) {
    m.index < n.index
  }

  /** In strictly ascending order of indices, as the store keeps them. */
  ghost predicate Ascending(ns: seq<HashNode>) {
    forall a, b :: 0 <= a < b < |ns| ==> ns[a].index < ns[b].index
  }

  /** Nodes with the same index are equal. */
  ghost predicate Functional(ns: seq<HashNode>) {
    forall m, n :: m in ns && n in ns && m.index == n.index ==> m == n
  }

  lemma ByIndexIsWeakOrder()
    ensures WeakOrder(ByIndex)
  {
  }

  /** The first node of each index. */
  method Unique(proof: seq<HashNode>) returns (u: seq<HashNode>)
    requires WeaklySorted(ByIndex, proof)
    ensures Ascending(u) && IndexSet(u) == IndexSet(proof) && forall n :: n in u ==> n in proof
  {
    u := [];
    for i := 0 to |proof|
      invariant Ascending(u) && (forall n :: n in u ==> n in proof[..i])
      invariant i == 0 <==> u == []
      invariant i > 0 ==> u[|u| - 1].index == proof[i - 1].index
      invariant forall k :: 0 <= k < i ==> proof[k].index in IndexSet(u)
    {
      ghost var before := u;
      assert proof[..i + 1] == proof[..i] + [proof[i]];
      if i == 0 || proof[i].index != proof[i - 1].index {
        if i > 0 {
          assert !ByIndex(proof[i], proof[i - 1]);
        }
        u := u + [proof[i]];
      }
      assert u[|u| - 1].index == proof[i].index;
      MoreIndices(before, u);
    }
    SameIndices(u, proof);
  }

  lemma MoreIndices(before: seq<HashNode>, u: seq<HashNode>)
    requires before <= u
    ensures IndexSet(before) <= IndexSet(u)
  {
    assert forall a :: 0 <= a < |before| ==> u[a] == before[a];
  }

  lemma SameIndices(u: seq<HashNode>, proof: seq<HashNode>)
    requires forall n :: n in u ==> n in proof
    requires forall k :: 0 <= k < |proof| ==> proof[k].index in IndexSet(u)
    ensures IndexSet(u) == IndexSet(proof)
  {
    forall x | x in IndexSet(u)
      ensures x in IndexSet(proof)
    {
      var a :| 0 <= a < |u| && u[a].index == x;
      assert u[a] in proof;
    }
  }

  /** How far a merge of two ascending lists has come. */
  ghost predicate Merged(nodes: seq<HashNode>, u: seq<HashNode>, i: nat, j: nat, r: seq<HashNode>)
    requires i <= |nodes| && j <= |u|
  {
    && Ascending(r)
    && (forall a, b :: 0 <= a < |r| && i <= b < |nodes| ==> r[a].index < nodes[b].index)
    && (forall a, b :: 0 <= a < |r| && j <= b < |u| ==> r[a].index < u[b].index)
    && (forall n :: n in r <==> n in nodes[..i] || (n in u[..j] && n.index !in IndexSet(nodes)))
    && (forall a :: 0 <= a < i ==> nodes[a] in r)
    && (forall b :: 0 <= b < j ==> u[b] in r || u[b].index in IndexSet(nodes))
  }

  /** `AddNodesToMerkleTree`: the stored nodes stay, and of the new ones those with new indices are added. */
  method AddNodesToMerkleTree(nodes: seq<HashNode>, proof: seq<HashNode>) returns (newList: seq<HashNode>)
    requires Ascending(nodes)
    ensures Ascending(newList) && IndexSet(newList) == IndexSet(nodes) + IndexSet(proof)
    ensures forall n :: n in newList ==> n in nodes || (n in proof && n.index !in IndexSet(nodes))
  {
    if |proof| == 0 {
      return nodes;
    }
    ByIndexIsWeakOrder();
    var sorted := SortWeakly(ByIndex, proof);
    SortedIndices(proof, sorted);
    var u := Unique(sorted);
    newList := [];
    var i, j := 0, 0;
    while i < |nodes| && j < |u|
      invariant i <= |nodes| && j <= |u| && Merged(nodes, u, i, j, newList)
      decreases |nodes| + |u| - i - j
    {
      if nodes[i].index == u[j].index {
        TakeBoth(nodes, u, i, j, newList);
        newList := newList + [nodes[i]];
        i, j := i + 1, j + 1;
      } else if nodes[i].index < u[j].index {
        TakeOld(nodes, u, i, j, newList);
        newList := newList + [nodes[i]];
        i := i + 1;
      } else {
        TakeNew(nodes, u, i, j, newList);
        newList := newList + [u[j]];
        j := j + 1;
      }
    }
    MergeRest(nodes, u, i, j, newList);
    if i < |nodes| {
      newList := newList + nodes[i..];
    } else {
      newList := newList + u[j..];
    }
  }

  lemma SortedIndices(proof: seq<HashNode>, sorted: seq<HashNode>)
    requires multiset(sorted) == multiset(proof)
    ensures IndexSet(sorted) == IndexSet(proof) && forall n :: n in sorted <==> n in proof
  {
    SameMembers(sorted, proof);
    forall k | 0 <= k < |proof|
      ensures proof[k].index in IndexSet(sorted)
    {
      assert proof[k] in sorted;
      var a :| 0 <= a < |sorted| && sorted[a] == proof[k];
    }
    SameIndices(sorted, proof);
  }

  lemma TakeOld(nodes: seq<HashNode>, u: seq<HashNode>, i: nat, j: nat, r: seq<HashNode>)
    requires Ascending(nodes) && Ascending(u) && i < |nodes| && j <= |u| && Merged(nodes, u, i, j, r)
    requires j < |u| ==> nodes[i].index < u[j].index
    ensures Merged(nodes, u, i + 1, j, r + [nodes[i]])
  {
    hide IndexSet;
    assert nodes[..i + 1] == nodes[..i] + [nodes[i]];
  }

  lemma TakeNew(nodes: seq<HashNode>, u: seq<HashNode>, i: nat, j: nat, r: seq<HashNode>)
    requires Ascending(nodes) && Ascending(u) && i <= |nodes| && j < |u| && Merged(nodes, u, i, j, r)
    requires i < |nodes| ==> u[j].index < nodes[i].index
    ensures Merged(nodes, u, i, j + 1, r + [u[j]])
  {
    assert u[..j + 1] == u[..j] + [u[j]];
    NewIndex(nodes, u, i, j, r);
    hide IndexSet;
  }

  lemma NewIndex(nodes: seq<HashNode>, u: seq<HashNode>, i: nat, j: nat, r: seq<HashNode>)
    requires Ascending(nodes) && i <= |nodes| && j < |u| && Merged(nodes, u, i, j, r)
    requires i < |nodes| ==> u[j].index < nodes[i].index
    ensures u[j].index !in IndexSet(nodes)
  {
    forall a | 0 <= a < |nodes|
      ensures nodes[a].index != u[j].index
    {
      if a < i {
        assert nodes[a] in r;
      }
    }
  }

  lemma TakeBoth(nodes: seq<HashNode>, u: seq<HashNode>, i: nat, j: nat, r: seq<HashNode>)
    requires Ascending(nodes) && Ascending(u) && i < |nodes| && j < |u| && Merged(nodes, u, i, j, r)
    requires nodes[i].index == u[j].index
    ensures Merged(nodes, u, i + 1, j + 1, r + [nodes[i]])
  {
    assert u[..j + 1] == u[..j] + [u[j]];
    assert nodes[..i + 1] == nodes[..i] + [nodes[i]];
    assert u[j].index in IndexSet(nodes);
    hide IndexSet;
  }

  lemma {:induction false} MergeRest(nodes: seq<HashNode>, u: seq<HashNode>, i: nat, j: nat, r: seq<HashNode>)
    requires Ascending(nodes) && Ascending(u) && i <= |nodes| && j <= |u| && Merged(nodes, u, i, j, r)
    requires i == |nodes| || j == |u|
    ensures var s := if i < |nodes| then r + nodes[i..] else r + u[j..];
            && Ascending(s) && IndexSet(s) == IndexSet(nodes) + IndexSet(u)
            && forall n :: n in s ==> n in nodes || (n in u && n.index !in IndexSet(nodes))
    decreases |nodes| + |u| - i - j
  {
    hide Merged, Ascending, IndexSet;
    if i < |nodes| {
      TakeOld(nodes, u, i, j, r);
      assert r + nodes[i..] == r + [nodes[i]] + nodes[i + 1..];
      assert i + 1 == |nodes| ==> nodes[i + 1..] == u[j..];
      MergeRest(nodes, u, i + 1, j, r + [nodes[i]]);
    } else if j < |u| {
      TakeNew(nodes, u, i, j, r);
      assert r + u[j..] == r + [u[j]] + u[j + 1..];
      MergeRest(nodes, u, i, j + 1, r + [u[j]]);
    } else {
      assert r + u[j..] == r;
      MergedAll(nodes, u, r);
    }
  }

  lemma MergedAll(nodes: seq<HashNode>, u: seq<HashNode>, r: seq<HashNode>)
    requires Merged(nodes, u, |nodes|, |u|, r)
    ensures Ascending(r) && IndexSet(r) == IndexSet(nodes) + IndexSet(u)
    ensures forall n :: n in r ==> n in nodes || (n in u && n.index !in IndexSet(nodes))
  {
    assert nodes[..|nodes|] == nodes && u[..|u|] == u;
    forall x | x in IndexSet(nodes) + IndexSet(u)
      ensures x in IndexSet(r)
    {
      if x in IndexSet(nodes) {
        var a :| 0 <= a < |nodes| && nodes[a].index == x;
        assert nodes[a] in r;
      } else {
        var b :| 0 <= b < |u| && u[b].index == x;
        assert u[b] in r;
      }
    }
  }

  /** Merging adds the new nodes to the map of the stored ones, and never overwrites one. */
  lemma MergeIsUnion(nodes: seq<HashNode>, proof: seq<HashNode>, newList: seq<HashNode>)
    requires Ascending(nodes) && Functional(proof)
    requires Ascending(newList) && IndexSet(newList) == IndexSet(nodes) + IndexSet(proof)
    requires forall n :: n in newList ==> n in nodes || (n in proof && n.index !in IndexSet(nodes))
    ensures MapOf(newList) == MapOf(proof) + MapOf(nodes)
  {
    hide IndexSet, MapOf, Functional, Ascending;
    forall n | n in newList
      ensures n.index in MapOf(newList) && MapOf(newList)[n.index] == n.hash
      ensures n.index in MapOf(proof) + MapOf(nodes) && (MapOf(proof) + MapOf(nodes))[n.index] == n.hash
    {
      OnlyNode(newList, n);
      if n in nodes {
        OnlyNode(nodes, n);
      } else {
        OnlyNode(proof, n);
      }
    }
    forall x | x in MapOf(newList)
      ensures MapOf(newList)[x] == (MapOf(proof) + MapOf(nodes))[x]
    {
      Listed(newList, x);
    }
  }

  lemma OnlyNode(ns: seq<HashNode>, n: HashNode)
    requires n in ns && (Ascending(ns) || Functional(ns))
    ensures n.index in MapOf(ns) && MapOf(ns)[n.index] == n.hash
  {
    var a :| 0 <= a < |ns| && ns[a] == n;
    assert n.index in MapOf(ns);
    Listed(ns, n.index);
  }

  // ------------------------------------------------------------------------ blocks

  /** What a submission adds to the live hashes, and what of it is reported. */
  lemma SubmitReports(sha: Bytes -> Bytes, leafCount: nat, pieceSize: nat, st: Tracker, x: Submission)
    requires Valid(leafCount, st)
    ensures var r := Submit(sha, leafCount, pieceSize, st, x);
            && (forall y :: y in st.hashes ==> y in r.0.hashes && r.0.hashes[y] == st.hashes[y])
            && (forall n :: n in r.2 ==> n.index !in st.hashes && n.index in Indices(Shape(leafCount))
                                         && n.index in r.0.hashes && r.0.hashes[n.index] == n.hash)
  {
    hide Settle, Shape, Closed, Indices, ProofPath;
    ShapeOk(leafCount);
    if Submit(sha, leafCount, pieceSize, st, x).1 {
      CheckReports(sha, Shape(leafCount), x.index, x.piece, x.proof, st.hashes);
    }
  }

  /** The reported nodes have new indices, and the hashes they have from then on. */
  lemma {:induction false} ReportedIsLive(
    sha: Bytes -> Bytes, leafCount: nat, pieceSize: nat, root: Bytes, xs: seq<Submission>, ys: seq<Submission>
  )
    requires leafCount > 0
    ensures var before, after := Run(sha, leafCount, pieceSize, root, xs), Run(sha, leafCount, pieceSize, root, xs + ys);
            && (forall y :: y in before.hashes ==> y in after.hashes && after.hashes[y] == before.hashes[y])
            && (forall n :: n in Reported(sha, leafCount, pieceSize, Run(sha, leafCount, pieceSize, root, xs), ys) ==>
                  n.index !in before.hashes && n.index in Indices(Shape(leafCount))
                  && n.index in after.hashes && after.hashes[n.index] == n.hash)
  {
    hide Submit, Shape, Indices, Closed;
    if ys == [] {
      assert xs + ys == xs;
    } else {
      var init := ys[..|ys| - 1];
      assert (xs + ys)[..|xs + ys| - 1] == xs + init;
      RunConcat(sha, leafCount, pieceSize, root, xs, init);
      ReportedIsLive(sha, leafCount, pieceSize, root, xs, init);
      SubmitReports(sha, leafCount, pieceSize, Run(sha, leafCount, pieceSize, root, xs + init), ys[|ys| - 1]);
    }
  }

  lemma MapOfConcat(a: seq<HashNode>, b: seq<HashNode>)
    requires Functional(a + b)
    ensures MapOf(a + b) == MapOf(a) + MapOf(b)
  {
    KeysOfConcat(a, b);
    hide IndexSet, MapOf, Functional;
    forall x | x in MapOf(a + b)
      ensures MapOf(a + b)[x] == (MapOf(a) + MapOf(b))[x]
    {
      Listed(a + b, x);
      AgreesIn(a + b, a, HashNode(x, MapOf(a + b)[x]));
      AgreesIn(a + b, b, HashNode(x, MapOf(a + b)[x]));
    }
  }

  lemma AgreesIn(all: seq<HashNode>, ns: seq<HashNode>, n: HashNode)
    requires Functional(all) && n in all && forall m :: m in ns ==> m in all
    ensures n.index in MapOf(ns) ==> MapOf(ns)[n.index] == n.hash
  {
    if n.index in MapOf(ns) {
      Listed(ns, n.index);
    }
  }

  lemma KeysOfConcat(a: seq<HashNode>, b: seq<HashNode>)
    ensures MapOf(a + b).Keys == (MapOf(a) + MapOf(b)).Keys
  {
    forall x | x in MapOf(a) + MapOf(b)
      ensures x in MapOf(a + b)
    {
      if x in MapOf(a) {
        var k :| 0 <= k < |a| && a[k].index == x;
        assert (a + b)[k].index == x;
      } else {
        var k :| 0 <= k < |b| && b[k].index == x;
        assert (a + b)[|a| + k].index == x;
      }
    }
    forall x | x in MapOf(a + b)
      ensures x in MapOf(a) + MapOf(b)
    {
      var k :| 0 <= k < |a + b| && (a + b)[k].index == x;
      assert k < |a| ==> a[k].index == x;
      assert k >= |a| ==> b[k - |a|].index == x;
    }
  }

  lemma ReportedIsFunctional(
    sha: Bytes -> Bytes, leafCount: nat, pieceSize: nat, root: Bytes, xs: seq<Submission>, ys: seq<Submission>
  )
    requires leafCount > 0
    ensures Functional(Reported(sha, leafCount, pieceSize, Run(sha, leafCount, pieceSize, root, xs), ys))
  {
    hide Shape, Run, Reported, Indices;
    ReportedIsLive(sha, leafCount, pieceSize, root, xs, ys);
  }

  lemma Associative(a: map<nat, Bytes>, b: map<nat, Bytes>, c: map<nat, Bytes>)
    ensures a + b + c == a + (b + c)
  {
  }

  /** What is persisted after more submissions: what was, and the nodes they report. */
  lemma {:induction false} PersistedLater(
    sha: Bytes -> Bytes, leafCount: nat, pieceSize: nat, root: Bytes, xs: seq<Submission>, ys: seq<Submission>
  )
    requires leafCount > 0
    ensures Persisted(sha, leafCount, pieceSize, root, xs + ys)
         == Persisted(sha, leafCount, pieceSize, root, xs)
            + MapOf(Reported(sha, leafCount, pieceSize, Run(sha, leafCount, pieceSize, root, xs), ys))
  {
    hide Submit, Shape, Run, MapOf, IndexSet, Functional;
    MapOfNone();
    if ys == [] {
      assert xs + ys == xs;
    } else {
      var init := ys[..|ys| - 1];
      assert (xs + ys)[..|xs + ys| - 1] == xs + init;
      PersistedLater(sha, leafCount, pieceSize, root, xs, init);
      RunConcat(sha, leafCount, pieceSize, root, xs, init);
      var r := Submit(sha, leafCount, pieceSize, Run(sha, leafCount, pieceSize, root, xs + init), ys[|ys| - 1]);
      var more := if |r.0.pieces| == leafCount then [] else r.2;
      ReportedIsFunctional(sha, leafCount, pieceSize, root, xs, ys);
      MapOfConcat(Reported(sha, leafCount, pieceSize, Run(sha, leafCount, pieceSize, root, xs), init), more);
      Associative(Persisted(sha, leafCount, pieceSize, root, xs),
                  MapOf(Reported(sha, leafCount, pieceSize, Run(sha, leafCount, pieceSize, root, xs), init)), MapOf(more));
    }
  }

  /** Persisted nodes are nodes below the root, with live hashes. */
  lemma PersistedIsLive(sha: Bytes -> Bytes, leafCount: nat, pieceSize: nat, root: Bytes, xs: seq<Submission>)
    requires leafCount > 0
    ensures var m := Persisted(sha, leafCount, pieceSize, root, xs);
            && m.Keys <= Indices(Shape(leafCount)) - {Shape(leafCount).index}
            && m.Keys <= Run(sha, leafCount, pieceSize, root, xs).hashes.Keys
  {
    hide Shape, Indices, Reported, Run, MapOf, Persisted;
    var ns := Reported(sha, leafCount, pieceSize, Run(sha, leafCount, pieceSize, root, []), xs);
    assert [] + xs == xs;
    PersistedLater(sha, leafCount, pieceSize, root, [], xs);
    ReportedIsLive(sha, leafCount, pieceSize, root, [], xs);
    NothingPersisted(sha, leafCount, pieceSize, root);
    assert Persisted(sha, leafCount, pieceSize, root, xs) == MapOf(ns);
    forall x | x in MapOf(ns)
      ensures x in Indices(Shape(leafCount)) && x != Shape(leafCount).index
      ensures x in Run(sha, leafCount, pieceSize, root, xs).hashes
    {
      Listed(ns, x);
    }
  }

  lemma NothingPersisted(sha: Bytes -> Bytes, leafCount: nat, pieceSize: nat, root: Bytes)
    requires leafCount > 0
    ensures Persisted(sha, leafCount, pieceSize, root, []) == map[]
    ensures Shape(leafCount).index in Run(sha, leafCount, pieceSize, root, []).hashes
  {
  }

  /** What is stored already is not reported again, so the order of the union does not matter. */
  lemma PersistedUnion(
    sha: Bytes -> Bytes, leafCount: nat, pieceSize: nat, root: Bytes, xs: seq<Submission>, block: seq<Submission>
  )
    requires leafCount > 0
    ensures var proof := Reported(sha, leafCount, pieceSize, Run(sha, leafCount, pieceSize, root, xs), block);
            Persisted(sha, leafCount, pieceSize, root, xs + block)
            == MapOf(proof) + Persisted(sha, leafCount, pieceSize, root, xs)
  {
    hide MapOf, IndexSet, Reported, Persisted, Run, Indices, Shape;
    var proof := Reported(sha, leafCount, pieceSize, Run(sha, leafCount, pieceSize, root, xs), block);
    var nodes := Persisted(sha, leafCount, pieceSize, root, xs);
    PersistedLater(sha, leafCount, pieceSize, root, xs, block);
    PersistedIsLive(sha, leafCount, pieceSize, root, xs);
    ReportedIsLive(sha, leafCount, pieceSize, root, xs, block);
    forall x | x in MapOf(proof)
      ensures x !in nodes
    {
      Listed(proof, x);
    }
    assert MapOf(proof) + nodes == nodes + MapOf(proof);
  }

  /** The store holds the nodes persisted by the run. */
  ghost predicate StoredAs(
    nodes: seq<HashNode>, sha: Bytes -> Bytes, leafCount: nat, pieceSize: nat, root: Bytes, xs: seq<Submission>
  )
    requires leafCount > 0
  {
    Ascending(nodes) && MapOf(nodes) == Persisted(sha, leafCount, pieceSize, root, xs)
  }

  /** Merging the proof nodes of a block at its end brings the store up to date. */
  lemma BlockIsStored(
    nodes: seq<HashNode>, newList: seq<HashNode>, sha: Bytes -> Bytes, leafCount: nat, pieceSize: nat, root: Bytes,
    xs: seq<Submission>, block: seq<Submission>
  )
    requires leafCount > 0 && StoredAs(nodes, sha, leafCount, pieceSize, root, xs)
    requires var proof := Reported(sha, leafCount, pieceSize, Run(sha, leafCount, pieceSize, root, xs), block);
             && Ascending(newList) && IndexSet(newList) == IndexSet(nodes) + IndexSet(proof)
             && forall n :: n in newList ==> n in nodes || (n in proof && n.index !in IndexSet(nodes))
    ensures StoredAs(newList, sha, leafCount, pieceSize, root, xs + block)
  {
    hide MapOf, IndexSet, Reported, Persisted, Run, Functional, Ascending;
    ReportedIsFunctional(sha, leafCount, pieceSize, root, xs, block);
    PersistedUnion(sha, leafCount, pieceSize, root, xs, block);
    MergeIsUnion(nodes, Reported(sha, leafCount, pieceSize, Run(sha, leafCount, pieceSize, root, xs), block), newList);
  }

  // ---------------------------------------------------------------------- recovery

  lemma MapOfOne(n: HashNode)
    ensures MapOf([n]) == map[n.index := n.hash]
  {
  }

  lemma PutLast(a: map<nat, Bytes>, b: map<nat, Bytes>, n: HashNode)
    ensures a + (b + map[n.index := n.hash]) == (a + b)[n.index := n.hash]
  {
  }

  lemma AscendingIsFunctional(ns: seq<HashNode>)
    requires Ascending(ns)
    ensures Functional(ns)
  {
    forall m, n | m in ns && n in ns && m.index == n.index
      ensures m == n
    {
      var a, b :| 0 <= a < |ns| && 0 <= b < |ns| && ns[a] == m && ns[b] == n;
    }
  }

  lemma {:induction false} OverlayIsUnion(places: map<nat, nat>, hashes: map<nat, Bytes>, nodes: seq<HashNode>)
    requires Functional(nodes) && forall x :: x in IndexSet(nodes) ==> x in places && places[x] == x
    ensures Overlay(places, hashes, nodes) == hashes + MapOf(nodes)
  {
    hide IndexSet, MapOf, Ascending;
    MapOfNone();
    if nodes != [] {
      var init, last := nodes[..|nodes| - 1], nodes[|nodes| - 1];
      assert nodes == init + [last];
      MoreIndices(init, nodes);
      assert Functional(init);
      hide Functional;
      OverlayIsUnion(places, hashes, init);
      MapOfConcat(init, [last]);
      MapOfOne(last);
      PutLast(hashes, MapOf(init), last);
      OnlyNode(nodes, last);
    }
  }

  /** `GetRawDataPieces` on the stored index and pieces: an error if a piece below the index is missing. */
  function StoredPieces(nextIndex: nat, rawData: map<nat, Bytes>): (r: Option<seq<Bytes>>) {
    if nextIndex == 0 then Some([])
    else
      match StoredPieces(nextIndex - 1, rawData)
      case None => None
      case Some(ps) => if nextIndex - 1 in rawData then Some(ps + [rawData[nextIndex - 1]]) else None
  }

  lemma {:induction false} PieceMissing(nextIndex: nat, rawData: map<nat, Bytes>, i: nat)
    requires i < nextIndex && i !in rawData
    ensures StoredPieces(nextIndex, rawData).None?
  {
    if i < nextIndex - 1 {
      PieceMissing(nextIndex - 1, rawData, i);
    }
  }

  method GetRawDataPieces(nextIndex: Option<nat>, rawData: map<nat, Bytes>) returns (r: Option<seq<Bytes>>)
    ensures r == if nextIndex.None? then Some([]) else StoredPieces(nextIndex.value, rawData)
  {
    if nextIndex.None? {
      return Some([]);
    }
    var ret := [];
    for i := 0 to nextIndex.value
      invariant StoredPieces(i, rawData) == Some(ret)
    {
      if i !in rawData {
        PieceMissing(nextIndex.value, rawData, i);
        return None;
      }
      ret := ret + [rawData[i]];
    }
    return Some(ret);
  }

  /** What the recovery of a tree comes to: there is none to recover, an error, a nil dereference, a tree. */
  datatype Recovery = Skipped | PieceLost | NilTree | Restored

  /** The recovery of a tree that was being collected. The error of making the new tree is ignored, so its
      setter dereferences nil, unless a missing piece is reported before. */
  method Recover(
    sha: Bytes -> Bytes, pieceSize: Uint32, leafCount: nat, root: Bytes,
    nextIndex: Option<nat>, rawData: map<nat, Bytes>, nodes: seq<HashNode>
  ) returns (m: MerkleTree?, r: Recovery)
    ensures var ps := if nextIndex.None? then Some([]) else StoredPieces(nextIndex.value, rawData);
            && r == (if leafCount == 0 then Skipped else if ps.None? then PieceLost
                     else if pieceSize == 0 || |root| != 32 then NilTree else Restored)
            && (m != null <==> r.Restored?)
            && (m != null ==> fresh(m) && m.Ok() && m.Whole() && m.pieces == ps.value)
    ensures m != null ==> m.hashes == Overlay(m.places, Start(leafCount, root).hashes, nodes)
    ensures m != null && Ascending(nodes) && IndexSet(nodes) <= Indices(Shape(leafCount)) ==>
              m.hashes == Start(leafCount, root).hashes + MapOf(nodes)
  {
    hide MapOf, IndexSet, Ascending, Functional, Shape, Indices, Overlay, StoredPieces;
    if leafCount == 0 {
      return null, Skipped;
    }
    var panicked;
    m, panicked := NewMT(sha, pieceSize, leafCount, root);
    var rawDataPieces := GetRawDataPieces(nextIndex, rawData);
    if rawDataPieces.None? {
      return null, PieceLost;
    }
    if m == null {
      return null, NilTree;
    }
    m.SetRawDataPieces(rawDataPieces.value);
    m.SetProofNodes(nodes);
    r := Restored;
    if Ascending(nodes) && IndexSet(nodes) <= Indices(Shape(leafCount)) {
      AscendingIsFunctional(nodes);
      OverlayIsUnion(m.places, Start(leafCount, root).hashes, nodes);
    }
  }
}
