/** Recovering a partly collected tree from the store (x/oracle/keeper/two_phases.go and the
    setters of x/oracle/types/merkletree.go): the hashes that are stored suffice. */
module MerkleRecovery {
  import opened Common
  import opened OracleTx
  import opened Merkle
  import opened MerkleCollect

  // ---------------------------------------------------------------- the same verdict

  /** A node whose hash is live but not stored has the hashes of both its children live. */
  ghost predicate Backed(t: Tree, live: set<nat>, stored: set<nat>) {
    && (t.index in live && t.index !in stored ==> t.Inner? && t.left.index in live && t.right.index in live)
    && (t.Inner? ==> Backed(t.left, live, stored) && Backed(t.right, live, stored))
  }

  /** The stored hashes are live ones, and back the others. */
  ghost predicate Shadows(t: Tree, live: map<nat, Bytes>, stored: map<nat, Bytes>) {
    && t.index in stored && Closed(t, live.Keys) && Backed(t, live.Keys, stored.Keys)
    && forall x :: x in stored ==> x in live && stored[x] == live[x]
  }

  lemma {:induction false} UnknownIfNone(t: Tree, i: nat, kept: set<nat>)
    requires kept !! Indices(t)
    ensures !Known(t, i, kept)
  {
    RootIsNode(t);
    if t.Inner? {
      UnknownIfNone(Toward(t, i), i, kept);
    }
  }

  /** A climb through nodes without kept hashes does not depend on which others are kept. */
  lemma {:induction false} ClimbAlike(
    sha: Bytes -> Bytes, t: Tree, i: nat, piece: Bytes, proof: seq<HashNode>, a: map<nat, Bytes>, b: map<nat, Bytes>
  )
    requires WellIndexed(t) && a.Keys !! Indices(t) - {t.index} && b.Keys !! Indices(t) - {t.index}
    ensures ClimbTo(sha, t, i, piece, proof, a) == ClimbTo(sha, t, i, piece, proof, b)
  {
    if t.Inner? {
      RootIsNode(t.left);
      RootIsNode(t.right);
      ClimbAlike(sha, Toward(t, i), i, piece, proof, a, b);
    }
  }

  /** The lowest live node above a leaf is stored, and nothing below it is kept. */
  lemma {:induction false} SameCheck(
    sha: Bytes -> Bytes, t: Tree, i: nat, piece: Bytes, proof: seq<HashNode>, live: map<nat, Bytes>, stored: map<nat, Bytes>
  )
    requires WellIndexed(t) && t.index in live && Closed(t, live.Keys) && Backed(t, live.Keys, stored.Keys)
    requires forall x :: x in stored ==> x in live && stored[x] == live[x]
    ensures Known(t, i, stored.Keys)
    ensures Settle(sha, t, i, piece, proof, live) == Settle(sha, t, i, piece, proof, stored)
  {
    if t.Inner? {
      KnownIfClosed(Toward(t, i), i, live.Keys);
      if Toward(t, i).index in live {
        SameCheck(sha, Toward(t, i), i, piece, proof, live, stored);
      } else {
        NothingBelow(t.left, live);
        NothingBelow(t.right, live);
        assert stored.Keys <= live.Keys;
        UnknownIfNone(Toward(t, i), i, stored.Keys);
        ClimbAlike(sha, t, i, piece, proof, live, stored);
      }
    }
  }

  // ------------------------------------------------------------------ what is stored

  /** The indices of a list of proof nodes. */
  function IndexSet(ns: seq<HashNode>): (s: set<nat>)
    ensures forall x :: x in s <==> exists k :: 0 <= k < |ns| && ns[k].index == x
  {
    set k | 0 <= k < |ns| :: ns[k].index
  }

  /** A list of proof nodes as a map; the first node of an index counts. */
  function MapOf(ns: seq<HashNode>): (m: map<nat, Bytes>)
    ensures m.Keys == IndexSet(ns)
  {
    if ns == [] then map[] else MapOf(ns[1..])[ns[0].index := ns[0].hash]
  }

  lemma {:induction false} Listed(ns: seq<HashNode>, x: nat)
    requires x in MapOf(ns)
    ensures HashNode(x, MapOf(ns)[x]) in ns
  {
    if x != ns[0].index {
      Listed(ns[1..], x);
    }
  }

  /** The nodes a climb reports are among those it computes, and include the leaf and every sibling. */
  lemma {:induction false} ClimbReports(
    sha: Bytes -> Bytes, t: Tree, i: nat, piece: Bytes, proof: seq<HashNode>, hashes: map<nat, Bytes>
  )
    requires WellIndexed(t) && i in LeafSet(t) && hashes.Keys !! Indices(t) - {t.index}
    requires ClimbTo(sha, t, i, piece, proof, hashes).At?
    ensures var c := ClimbTo(sha, t, i, piece, proof, hashes);
            && (forall n :: n in c.used ==> n.index in Indices(t) && (t.Inner? ==> n.index != t.index))
            && (forall n :: n in c.used ==> n.index in c.kept[t.index := c.hash] && c.kept[t.index := c.hash][n.index] == n.hash)
            && (forall x :: x == i || x in ProofPath(t, i) ==> x in IndexSet(c.used))
  {
    if t.Inner? {
      var child, pair := Toward(t, i), Aside(t, i);
      RootIsNode(child);
      RootIsNode(pair);
      ClimbReports(sha, child, i, piece, proof, hashes);
      KeptBelow(sha, child, i, piece, proof, hashes);
      var c, d := ClimbTo(sha, t, i, piece, proof, hashes), ClimbTo(sha, child, i, piece, proof, hashes);
      assert c.used[|d.used|].index == pair.index;
      forall x | x in IndexSet(d.used)
        ensures x in IndexSet(c.used)
      {
        var k :| 0 <= k < |d.used| && d.used[k].index == x;
        assert c.used[k].index == x;
      }
    }
  }

  /** A successful check computes only hashes that were not kept, and reports the leaf's and those
      of all siblings among them. */
  lemma {:induction false} CheckReports(
    sha: Bytes -> Bytes, t: Tree, i: nat, piece: Bytes, proof: seq<HashNode>, hashes: map<nat, Bytes>
  )
    requires WellIndexed(t) && i in LeafSet(t) && t.index in hashes && Closed(t, hashes.Keys)
    requires Settle(sha, t, i, piece, proof, hashes).Some?
    ensures var g := Settle(sha, t, i, piece, proof, hashes).value;
            && g.kept.Keys !! hashes.Keys && g.kept.Keys <= Indices(t)
            && (forall n :: n in g.used ==> n.index in g.kept && g.kept[n.index] == n.hash)
            && (forall x :: (x == i || x in ProofPath(t, i)) && x !in hashes ==> x in IndexSet(g.used))
  {
    if t.Inner? {
      KnownIfClosed(Toward(t, i), i, hashes.Keys);
      if Toward(t, i).index in hashes {
        CheckReports(sha, Toward(t, i), i, piece, proof, hashes);
      } else {
        hide HashOf, IndexSet, ProofPath;
        NothingBelow(t.left, hashes);
        NothingBelow(t.right, hashes);
        ClimbReports(sha, t, i, piece, proof, hashes);
        KeptBelow(sha, t, i, piece, proof, hashes);
      }
    }
  }

  /** Beside the way, every new live node is stored. */
  lemma {:induction false} BackedAside(t: Tree, live: set<nat>, stored: set<nat>, live': set<nat>, stored': set<nat>)
    requires Backed(t, live, stored) && live <= live' && stored <= stored'
    requires forall x :: x in Indices(t) && x in live' ==> x in live || x in stored'
    ensures Backed(t, live', stored')
  {
    RootIsNode(t);
    if t.Inner? {
      BackedAside(t.left, live, stored, live', stored');
      BackedAside(t.right, live, stored, live', stored');
    }
  }

  /** On the way, a new live node is stored or has both its children on the way. */
  lemma {:induction false} BackedOnWay(
    t: Tree, i: nat, live: set<nat>, stored: set<nat>, live': set<nat>, stored': set<nat>
  )
    requires WellIndexed(t) && i in LeafSet(t) && Backed(t, live, stored) && live <= live' && stored <= stored'
    requires WayTo(t, i) <= live'
    requires forall x :: x in Indices(t) && x in live' ==> x in live || x in WayTo(t, i) || x == t.index
    requires forall x :: x == i || x in ProofPath(t, i) ==> x in live || x in stored'
    ensures Backed(t, live', stored')
  {
    if t.Inner? {
      var child, pair := Toward(t, i), Aside(t, i);
      RootIsNode(child);
      RootIsNode(pair);
      WayIsBelow(child, i);
      BackedOnWay(child, i, live, stored, live', stored');
      assert pair.index in ProofPath(t, i);
      BackedAside(pair, live, stored, live', stored');
    }
  }

  /** Adding what a check keeps to the live hashes, and at least what it reports to the stored ones. */
  lemma ShadowsAfter(
    sha: Bytes -> Bytes, t: Tree, i: nat, piece: Bytes, proof: seq<HashNode>,
    live: map<nat, Bytes>, stored: map<nat, Bytes>, stored': map<nat, Bytes>
  )
    requires WellIndexed(t) && i in LeafSet(t) && Shadows(t, live, stored)
    requires Settle(sha, t, i, piece, proof, live).Some?
    requires var g := Settle(sha, t, i, piece, proof, live).value;
             && stored.Keys + IndexSet(g.used) <= stored'.Keys
             && forall x :: x in stored' ==> x in live + g.kept && stored'[x] == (live + g.kept)[x]
    ensures Shadows(t, live + Settle(sha, t, i, piece, proof, live).value.kept, stored')
  {
    hide Settle, Closed, Backed, IndexSet, ProofPath;
    var g := Settle(sha, t, i, piece, proof, live).value;
    SettleKeepsWay(sha, t, i, piece, proof, live);
    WayKeepsClosed(t, i, live.Keys);
    CheckReports(sha, t, i, piece, proof, live);
    BackedOnWay(t, i, live.Keys, stored.Keys, (live + g.kept).Keys, stored'.Keys);
  }

  // ------------------------------------------------------------------------- runs

  /** The proof nodes in the store after a run: those of every accepted submission, except that
      nothing is stored once the tree is complete. */
  ghost function Persisted(
    sha: Bytes -> Bytes, leafCount: nat, pieceSize: nat, root: Bytes, xs: seq<Submission>
  ): (m: map<nat, Bytes>)
    requires leafCount > 0
  {
    if xs == [] then map[]
    else
      var init := xs[..|xs| - 1];
      var r := Submit(sha, leafCount, pieceSize, Run(sha, leafCount, pieceSize, root, init), xs[|xs| - 1]);
      Persisted(sha, leafCount, pieceSize, root, init) + if |r.0.pieces| == leafCount then map[] else MapOf(r.2)
  }

  /** The tree that a node restores: the root, the stored pieces and the stored proof nodes. */
  ghost function Recovered(
    sha: Bytes -> Bytes, leafCount: nat, pieceSize: nat, root: Bytes, xs: seq<Submission>
  ): (st: Tracker)
    requires leafCount > 0
    ensures Rooted(leafCount, st)
  {
    Tracker(Persisted(sha, leafCount, pieceSize, root, xs) + Start(leafCount, root).hashes,
            Run(sha, leafCount, pieceSize, root, xs).pieces)
  }

  /** Two trees that decide alike: the same pieces and, until the tree is complete, hashes that
      back each other. */
  ghost predicate Alike(leafCount: nat, live: Tracker, other: Tracker) {
    && leafCount > 0 && Rooted(leafCount, live) && Rooted(leafCount, other)
    && live.pieces == other.pieces && |live.pieces| <= leafCount
    && (|live.pieces| < leafCount ==> Shadows(Shape(leafCount), live.hashes, other.hashes))
  }

  /** Trees that are alike give the same verdict and report the same proof, and stay alike. */
  lemma AlikeStep(sha: Bytes -> Bytes, leafCount: nat, pieceSize: nat, live: Tracker, other: Tracker, x: Submission)
    requires Alike(leafCount, live, other)
    ensures var r, q := Submit(sha, leafCount, pieceSize, live, x), Submit(sha, leafCount, pieceSize, other, x);
            r.1 == q.1 && r.2 == q.2 && Alike(leafCount, r.0, q.0)
  {
    hide Settle, Shape, Backed, Closed, IndexSet;
    var t := Shape(leafCount);
    ShapeOk(leafCount);
    if x.index == |live.pieces| < leafCount && SizeOk(leafCount, pieceSize, x) {
      SameCheck(sha, t, x.index, x.piece, x.proof, live.hashes, other.hashes);
      var s := Settle(sha, t, x.index, x.piece, x.proof, live.hashes);
      if s.Some? {
        CheckReports(sha, t, x.index, x.piece, x.proof, live.hashes);
        ShadowsAfter(sha, t, x.index, x.piece, x.proof, live.hashes, other.hashes, other.hashes + s.value.kept);
      }
    }
  }

  lemma {:induction false} UsedIsKept(g: Gain, x: nat)
    requires forall n :: n in g.used ==> n.index in g.kept && g.kept[n.index] == n.hash
    requires x in MapOf(g.used)
    ensures x in g.kept && MapOf(g.used)[x] == g.kept[x]
  {
    Listed(g.used, x);
  }

  /** The restored tree is like the one that was lost. */
  lemma {:induction false} RecoveredIsAlike(
    sha: Bytes -> Bytes, leafCount: nat, pieceSize: nat, root: Bytes, xs: seq<Submission>
  )
    requires leafCount > 0
    ensures Alike(leafCount, Run(sha, leafCount, pieceSize, root, xs), Recovered(sha, leafCount, pieceSize, root, xs))
  {
    hide Settle, Shape, Closed, IndexSet, MapOf;
    var t := Shape(leafCount);
    if xs == [] {
      StartIsValid(leafCount, root);
      var h := Start(leafCount, root).hashes;
      assert Persisted(sha, leafCount, pieceSize, root, xs) + h == h;
      BackedBySelf(t, h.Keys);
    } else {
      var init, x := xs[..|xs| - 1], xs[|xs| - 1];
      RecoveredIsAlike(sha, leafCount, pieceSize, root, init);
      StoreStep(sha, leafCount, pieceSize, Run(sha, leafCount, pieceSize, root, init),
                Persisted(sha, leafCount, pieceSize, root, init), Start(leafCount, root).hashes, x);
    }
  }

  lemma {:induction false} BackedBySelf(t: Tree, kept: set<nat>)
    ensures Backed(t, kept, kept)
  {
    if t.Inner? {
      BackedBySelf(t.left, kept);
      BackedBySelf(t.right, kept);
    }
  }

  /** Storing what a submission reports. */
  lemma StoreStep(
    sha: Bytes -> Bytes, leafCount: nat, pieceSize: nat, live: Tracker, nodes: map<nat, Bytes>, start: map<nat, Bytes>,
    x: Submission
  )
    requires leafCount > 0 && Shape(leafCount).index in start
    requires Alike(leafCount, live, Tracker(nodes + start, live.pieces))
    ensures var r := Submit(sha, leafCount, pieceSize, live, x);
            var more := if |r.0.pieces| == leafCount then map[] else MapOf(r.2);
            Alike(leafCount, r.0, Tracker(nodes + more + start, r.0.pieces))
  {
    hide Settle, Shape, Backed, Closed, IndexSet, MapOf;
    var t := Shape(leafCount);
    ShapeOk(leafCount);
    var r := Submit(sha, leafCount, pieceSize, live, x);
    if r.1 && |r.0.pieces| < leafCount {
      var g := Settle(sha, t, x.index, x.piece, x.proof, live.hashes).value;
      CheckReports(sha, t, x.index, x.piece, x.proof, live.hashes);
      forall y | y in MapOf(g.used)
        ensures y in g.kept && MapOf(g.used)[y] == g.kept[y]
      {
        UsedIsKept(g, y);
      }
      StoredValues(live.hashes, nodes, start, g.kept, MapOf(g.used));
      ShadowsAfter(sha, t, x.index, x.piece, x.proof, live.hashes, nodes + start, nodes + MapOf(g.used) + start);
    } else if !r.1 {
      MapOfNone();
      assert nodes + map[] == nodes;
    }
  }

  lemma MapOfNone()
    ensures MapOf([]) == map[]
  {
  }

  lemma StoredValues(live: map<nat, Bytes>, nodes: map<nat, Bytes>, start: map<nat, Bytes>, kept: map<nat, Bytes>, used: map<nat, Bytes>)
    requires forall x :: x in nodes + start ==> x in live && (nodes + start)[x] == live[x]
    requires forall x :: x in used ==> x in kept && used[x] == kept[x]
    requires kept.Keys !! live.Keys
    ensures (nodes + used + start).Keys == (nodes + start).Keys + used.Keys
    ensures forall x :: x in nodes + used + start ==>
              x in live + kept && (nodes + used + start)[x] == (live + kept)[x]
  {
    forall x | x in nodes + used + start
      ensures x in live + kept && (nodes + used + start)[x] == (live + kept)[x]
    {
      assert x in nodes + start || x in used;
    }
  }

  // --------------------------------------------------------------- runs from a state

  /** A run from any state. */
  ghost function RunFrom(sha: Bytes -> Bytes, leafCount: nat, pieceSize: nat, st: Tracker, ys: seq<Submission>): (r: Tracker)
    requires Rooted(leafCount, st)
    ensures Rooted(leafCount, r)
  {
    if ys == [] then st
    else Submit(sha, leafCount, pieceSize, RunFrom(sha, leafCount, pieceSize, st, ys[..|ys| - 1]), ys[|ys| - 1]).0
  }

  /** The proof nodes that submissions report, but for one that completes the tree. */
  ghost function Reported(
    sha: Bytes -> Bytes, leafCount: nat, pieceSize: nat, st: Tracker, ys: seq<Submission>
  ): (ns: seq<HashNode>)
    requires Rooted(leafCount, st)
  {
    if ys == [] then []
    else
      var init := ys[..|ys| - 1];
      var r := Submit(sha, leafCount, pieceSize, RunFrom(sha, leafCount, pieceSize, st, init), ys[|ys| - 1]);
      Reported(sha, leafCount, pieceSize, st, init) + if |r.0.pieces| == leafCount then [] else r.2
  }

  lemma {:induction false} RunConcat(
    sha: Bytes -> Bytes, leafCount: nat, pieceSize: nat, root: Bytes, xs: seq<Submission>, ys: seq<Submission>
  )
    requires leafCount > 0
    ensures Run(sha, leafCount, pieceSize, root, xs + ys)
         == RunFrom(sha, leafCount, pieceSize, Run(sha, leafCount, pieceSize, root, xs), ys)
  {
    hide Submit, Shape;
    if ys == [] {
      assert xs + ys == xs;
    } else {
      assert (xs + ys)[..|xs + ys| - 1] == xs + ys[..|ys| - 1];
      RunConcat(sha, leafCount, pieceSize, root, xs, ys[..|ys| - 1]);
    }
  }

  /** Trees that are alike stay so along every run, and report the same. */
  lemma {:induction false} AlikeRuns(
    sha: Bytes -> Bytes, leafCount: nat, pieceSize: nat, live: Tracker, other: Tracker, ys: seq<Submission>
  )
    requires Alike(leafCount, live, other)
    ensures Alike(leafCount, RunFrom(sha, leafCount, pieceSize, live, ys), RunFrom(sha, leafCount, pieceSize, other, ys))
    ensures Reported(sha, leafCount, pieceSize, live, ys) == Reported(sha, leafCount, pieceSize, other, ys)
  {
    hide Submit, Shadows, Rooted;
    if ys != [] {
      var init := ys[..|ys| - 1];
      AlikeRuns(sha, leafCount, pieceSize, live, other, init);
      AlikeStep(sha, leafCount, pieceSize, RunFrom(sha, leafCount, pieceSize, live, init),
                RunFrom(sha, leafCount, pieceSize, other, init), ys[|ys| - 1]);
    }
  }
}
