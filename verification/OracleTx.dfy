/** Oracle transactions, their classification (app/ante/utils/oracle.go), and the
    raw-data pieces they carry (x/oracle/types/types.go). */
module OracleTx {
  import opened Common

  type FeederId = nat
  type PieceIndex = nat
  type BlockNumber = nat

  datatype Phase = SinglePhase | PhaseOne | PhaseTwo

  datatype Msg =
    | CreatePrice(feederID: FeederId, phase: Phase, basedBlock: BlockNumber, prices: Bytes)
    | Other(body: Bytes)

  /** `envelope` stands for everything in a transaction besides its messages, such as signatures. */
  datatype Tx = Tx(msgs: seq<Msg>, envelope: Bytes)

  datatype HashNode = HashNode(index: nat, hash: Bytes)

  datatype Piece = Piece(
    index: PieceIndex, rawData: Bytes, proof: seq<HashNode>, baseBlock: BlockNumber, tx: Tx)

  /** `PieceWithProof.EqualsTo`: the base block and the transaction are not compared. */
  predicate EqualsTo(p: Piece, q: Piece) {
    p.index == q.index && p.rawData == q.rawData && p.proof == q.proof
  }

  /** A raw-data transaction: exactly one message, and that an oracle message of phase two. */
  predicate IsRawData(tx: Tx) {
    |tx.msgs| == 1 && tx.msgs[0].CreatePrice? && tx.msgs[0].phase.PhaseTwo?
  }

  /** An oracle message is followed by a foreign one, or a phase-two message has company. */
  predicate IsMixed(tx: Tx) {
    || (|tx.msgs| > 1 && exists i :: 0 <= i < |tx.msgs| && tx.msgs[i].CreatePrice? && tx.msgs[i].phase.PhaseTwo?)
    || (exists i, j :: 0 <= i < j < |tx.msgs| && tx.msgs[i].CreatePrice? && tx.msgs[j].Other?)
  }

  predicate HasOracleMsg(tx: Tx) {
    exists i :: 0 <= i < |tx.msgs| && tx.msgs[i].CreatePrice?
  }

  function OracleMsgs(msgs: seq<Msg>): (r: seq<Msg>) {
    if msgs == [] then []
    else OracleMsgs(msgs[..|msgs| - 1]) + if msgs[|msgs| - 1].CreatePrice? then [msgs[|msgs| - 1]] else []
  }

  lemma OracleMsgsPush(msgs: seq<Msg>, m: Msg)
    ensures OracleMsgs(msgs + [m]) == if m.CreatePrice? then OracleMsgs(msgs) + [m] else OracleMsgs(msgs)
  {
    assert (msgs + [m])[..|msgs|] == msgs;
  }

  /** The first result has the oracle messages in their order. */
  lemma {:induction false} OracleMsgsInOrder(msgs: seq<Msg>)
    ensures Subsequence(OracleMsgs(msgs), msgs)
  {
    if msgs != [] {
      hide OracleMsgs, Subsequence;
      var init, last := msgs[..|msgs| - 1], msgs[|msgs| - 1];
      OracleMsgsInOrder(init);
      OracleMsgsPush(init, last);
      assert msgs == init + [last];
      if last.CreatePrice? {
        SubsequenceBoth(OracleMsgs(init), init, last);
      } else {
        SubsequencePush(OracleMsgs(init), init, last);
      }
    }
  }

  /** And each as often as it occurs. */
  lemma {:induction false} OracleMsgsCount(msgs: seq<Msg>, m: Msg)
    ensures multiset(OracleMsgs(msgs))[m] == if m.CreatePrice? then multiset(msgs)[m] else 0
  {
    if msgs != [] {
      hide OracleMsgs;
      var init, last := msgs[..|msgs| - 1], msgs[|msgs| - 1];
      OracleMsgsCount(init, m);
      OracleMsgsPush(init, last);
      assert msgs == init + [last];
      OneMore(init, last, m);
      OneMore(OracleMsgs(init), last, m);
    }
  }

  lemma OneMore(msgs: seq<Msg>, last: Msg, m: Msg)
    ensures multiset(msgs + [last])[m] == multiset(msgs)[m] + if m == last then 1 else 0
  {
  }

  /** `IsValidOracleTx`, with its early returns: the oracle messages of a transaction that is not
      mixed, and how it is classified. */
  method IsValidOracleTx(tx: Tx) returns (msgOracles: seq<Msg>, isOracle: bool, isPhaseTwo: bool, mixed: bool)
    ensures isPhaseTwo <==> IsRawData(tx)
    ensures mixed <==> IsMixed(tx)
    ensures isOracle <==> HasOracleMsg(tx) && !IsMixed(tx)
    ensures msgOracles == if mixed then [] else OracleMsgs(tx.msgs)
  {
    var msgs := tx.msgs;
    if |msgs| == 0 {
      return [], false, false, false;
    }
    msgOracles := [];
    var hasOracleMsg := false;
    for i := 0 to |msgs|
      invariant hasOracleMsg <==> exists k :: 0 <= k < i && msgs[k].CreatePrice?
      invariant forall k :: 0 <= k < i && msgs[k].CreatePrice? ==> !msgs[k].phase.PhaseTwo?
      invariant forall k, l :: 0 <= k < l < i && msgs[k].CreatePrice? ==> msgs[l].CreatePrice?
      invariant msgOracles == OracleMsgs(msgs[..i])
    {
      assert msgs[..i + 1][..i] == msgs[..i];
      if msgs[i].CreatePrice? {
        msgOracles := msgOracles + [msgs[i]];
        hasOracleMsg := true;
        if msgs[i].phase.PhaseTwo? {
          if |msgs| == 1 {
            assert msgs[..i + 1] == msgs;
            return msgOracles, true, true, false;
          }
          return [], false, false, true;
        }
      } else if hasOracleMsg {
        return [], false, false, true;
      }
    }
    assert msgs[..|msgs|] == msgs;
    return msgOracles, hasOracleMsg, false, false;
  }

  /** `IsOraclePhaseTwoTx`: it singles out the same transactions as `IsValidOracleTx` does by
      its third result, so both branches of `Select` drop by one rule. */
  method IsOraclePhaseTwoTx(tx: Tx) returns (r: bool)
    ensures r <==> IsRawData(tx)
  {
    if |tx.msgs| != 1 {
      return false;
    }
    if tx.msgs[0].Other? {
      return false;
    }
    return tx.msgs[0].phase == PhaseTwo;
  }

  // --------------------------------------------------- the results as documented

  predicate AllOracle(tx: Tx) {
    forall i :: 0 <= i < |tx.msgs| ==> tx.msgs[i].CreatePrice?
  }

  predicate HasPhaseTwo(tx: Tx) {
    exists i :: 0 <= i < |tx.msgs| && tx.msgs[i].CreatePrice? && tx.msgs[i].phase.PhaseTwo?
  }

  predicate HasForeign(tx: Tx) {
    exists i :: 0 <= i < |tx.msgs| && tx.msgs[i].Other?
  }

  /** The second result is meant to say: all messages are oracle messages and none is of phase two.
      A true one says so exactly if the first message is such a message. The other way round only the
      empty transaction is missed. */
  lemma SecondResultAsDocumented(tx: Tx)
    ensures HasOracleMsg(tx) && !IsMixed(tx) ==>
              (AllOracle(tx) && !HasPhaseTwo(tx) <==> tx.msgs[0].CreatePrice? && !tx.msgs[0].phase.PhaseTwo?)
    ensures AllOracle(tx) && !HasPhaseTwo(tx) ==> (HasOracleMsg(tx) && !IsMixed(tx) <==> tx.msgs != [])
  {
    if HasOracleMsg(tx) && !IsMixed(tx) && tx.msgs[0].CreatePrice? {
      forall i | 0 <= i < |tx.msgs|
        ensures tx.msgs[i].CreatePrice? && (tx.msgs[i].phase.PhaseTwo? ==> i == 0)
      {
        assert i > 0 ==> !(tx.msgs[0].CreatePrice? && tx.msgs[i].Other?);
      }
    }
    if AllOracle(tx) && !HasPhaseTwo(tx) && tx.msgs != [] {
      assert tx.msgs[0].CreatePrice?;
    }
  }

  /** The inputs at which a true second result says too much. */
  lemma SecondResultFails()
    ensures var tx := Tx([Other([]), CreatePrice(1, SinglePhase, 1, [])], []);
            HasOracleMsg(tx) && !IsMixed(tx) && !AllOracle(tx)
    ensures var tx := Tx([CreatePrice(1, PhaseTwo, 1, [])], []);
            HasOracleMsg(tx) && !IsMixed(tx) && HasPhaseTwo(tx)
  {
    var tx := Tx([Other([]), CreatePrice(1, SinglePhase, 1, [])], []);
    assert tx.msgs[1].CreatePrice? && tx.msgs[0].Other?;
    var raw := Tx([CreatePrice(1, PhaseTwo, 1, [])], []);
    assert raw.msgs[0].CreatePrice? && raw.msgs[0].phase.PhaseTwo?;
  }

  /** The third result is meant to say: there is exactly one oracle message and it is of phase two.
      That is so of a true one; a false one misses it exactly if there are foreign messages too. */
  lemma ThirdResultAsDocumented(tx: Tx)
    ensures OneOracleOfPhaseTwo(tx) ==> (IsRawData(tx) <==> !HasForeign(tx))
    ensures IsRawData(tx) ==> OneOracleOfPhaseTwo(tx)
  {
    if OneOracleOfPhaseTwo(tx) {
      var i: nat :| OnlyOracleAt(tx, i) && tx.msgs[i].phase.PhaseTwo?;
      var j := if i == 0 then 1 else 0;
      assert tx.msgs[i].CreatePrice? && (j < |tx.msgs| ==> tx.msgs[j].Other?);
    }
    if IsRawData(tx) {
      assert OnlyOracleAt(tx, 0);
    }
  }

  lemma ThirdResultFails()
    ensures var tx := Tx([Other([]), CreatePrice(1, PhaseTwo, 1, [])], []);
            OneOracleOfPhaseTwo(tx) && !IsRawData(tx)
  {
    var tx := Tx([Other([]), CreatePrice(1, PhaseTwo, 1, [])], []);
    assert OnlyOracleAt(tx, 1);
  }

  predicate OnlyOracleAt(tx: Tx, i: nat) {
    i < |tx.msgs| && forall j :: 0 <= j < |tx.msgs| ==> (tx.msgs[j].CreatePrice? <==> j == i)
  }

  ghost predicate OneOracleOfPhaseTwo(tx: Tx) {
    exists i: nat :: OnlyOracleAt(tx, i) && tx.msgs[i].phase.PhaseTwo?
  }

  /** Foreign messages first and then oracle messages, none of phase two. */
  predicate ForeignFirst(tx: Tx) {
    && HasForeign(tx) && HasOracleMsg(tx) && !HasPhaseTwo(tx)
    && forall i, j :: 0 <= i < j < |tx.msgs| && tx.msgs[i].CreatePrice? ==> tx.msgs[j].CreatePrice?
  }

  /** The fourth result is meant to say: there are oracle messages and foreign ones. It says so too much
      exactly of several oracle messages with one of phase two among them, and misses it exactly if the
      foreign messages come first and no oracle message is of phase two. */
  lemma FourthResultAsDocumented(tx: Tx)
    ensures IsMixed(tx) && !(HasOracleMsg(tx) && HasForeign(tx)) <==> |tx.msgs| > 1 && AllOracle(tx) && HasPhaseTwo(tx)
    ensures HasOracleMsg(tx) && HasForeign(tx) && !IsMixed(tx) <==> ForeignFirst(tx)
  {
    if HasOracleMsg(tx) && HasForeign(tx) {
      var i, j :| 0 <= i < |tx.msgs| && tx.msgs[i].CreatePrice? && 0 <= j < |tx.msgs| && tx.msgs[j].Other?;
      assert i != j;
    }
  }

  lemma FourthResultFails()
    ensures var tx := Tx([CreatePrice(1, PhaseTwo, 1, []), CreatePrice(1, PhaseTwo, 1, [])], []);
            IsMixed(tx) && !HasForeign(tx)
    ensures var tx := Tx([Other([]), CreatePrice(1, SinglePhase, 1, [])], []);
            !IsMixed(tx) && HasForeign(tx) && HasOracleMsg(tx)
  {
    var two := Tx([CreatePrice(1, PhaseTwo, 1, []), CreatePrice(1, PhaseTwo, 1, [])], []);
    assert two.msgs[0].CreatePrice? && two.msgs[0].phase.PhaseTwo?;
    var tx := Tx([Other([]), CreatePrice(1, SinglePhase, 1, [])], []);
    assert tx.msgs[1].CreatePrice? && tx.msgs[0].Other?;
  }

  // ---------------------------------------------------------------------- raw data

  /** The feeder a raw-data transaction reports for. */
  function FeederOf(tx: Tx): (f: FeederId)
    requires IsRawData(tx)
  {
    tx.msgs[0].feederID
  }

  /** A raw-data transaction for feeder `f`. */
  predicate RawFor(tx: Tx, f: FeederId) {
    IsRawData(tx) && FeederOf(tx) == f
  }

  function RawsFor(txs: seq<Tx>, f: FeederId): (r: seq<Tx>) {
    if txs == [] then []
    else RawsFor(txs[..|txs| - 1], f) + if RawFor(txs[|txs| - 1], f) then [txs[|txs| - 1]] else []
  }

  function NonRaws(txs: seq<Tx>): (r: seq<Tx>) {
    if txs == [] then []
    else NonRaws(txs[..|txs| - 1]) + if IsRawData(txs[|txs| - 1]) then [] else [txs[|txs| - 1]]
  }

  lemma RawsForPush(txs: seq<Tx>, tx: Tx, f: FeederId)
    ensures RawsFor(txs + [tx], f) == if RawFor(tx, f) then RawsFor(txs, f) + [tx] else RawsFor(txs, f)
  {
    assert (txs + [tx])[..|txs|] == txs;
  }

  lemma NonRawsPush(txs: seq<Tx>, tx: Tx)
    ensures NonRaws(txs + [tx]) == if IsRawData(tx) then NonRaws(txs) else NonRaws(txs) + [tx]
  {
    assert (txs + [tx])[..|txs|] == txs;
  }

  lemma {:induction false} RawsForConcat(a: seq<Tx>, b: seq<Tx>, f: FeederId)
    ensures RawsFor(a + b, f) == RawsFor(a, f) + RawsFor(b, f)
    decreases |b|
  {
    if b == [] {
      assert a + b == a;
    } else {
      var last := |b| - 1;
      assert (a + b)[..|a + b| - 1] == a + b[..last];
      RawsForConcat(a, b[..last], f);
    }
  }

  lemma {:induction false} NonRawsConcat(a: seq<Tx>, b: seq<Tx>)
    ensures NonRaws(a + b) == NonRaws(a) + NonRaws(b)
    decreases |b|
  {
    if b == [] {
      assert a + b == a;
    } else {
      var last := |b| - 1;
      assert (a + b)[..|a + b| - 1] == a + b[..last];
      NonRawsConcat(a, b[..last]);
    }
  }
}
