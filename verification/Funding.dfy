/** The batching loop of `FundingObjects` in testutil/batch/utils.go, over `IterateObjects`. */
module Funding {
  import opened Common
  import opened Decimal

  /** `ImuaDecimalReduction`, the base units of one token. */
  const Reduction: int := 1_000_000_000_000_000_000

  const TwoTo63: int := 0x8000_0000_0000_0000

  /** `big.Int.Int64`, and 64-bit arithmetic: the low 64 bits, signed. */
  function Int64(x: int): (r: int)
    ensures -TwoTo63 <= r < TwoTo63
    ensures -TwoTo63 <= x < TwoTo63 ==> r == x
  {
    (x + TwoTo63) % (2 * TwoTo63) - TwoTo63
  }

  /** An object with its balance in base units; the balance is `None` if the query fails. */
  datatype Object = Object(shouldFund: bool, address: Bytes, balance: Option<nat>)

  datatype Output = Output(address: Bytes, amount: int)

  datatype MultiSend = MultiSend(input: int, outputs: seq<Output>)

  /** `Panicked` is the panic of `NewCoin` on a negative amount. */
  datatype Outcome =
    | NothingToFund
    | Send(msgs: seq<MultiSend>, total: int, sent: bool)
    | Failed
    | Panicked

  // ------------------------------------------------------------------ one object

  function Tokens(balance: nat): (t: int) {
    Int64(balance / Reduction)
  }

  predicate Underfunded(o: Object, need: int) {
    o.shouldFund && o.balance.Some? && Tokens(o.balance.value) < need
  }

  /** The whole tokens an underfunded object is given. */
  function AmountFor(o: Object, need: int): (a: int)
    requires Underfunded(o, need)
  {
    Int64(need - Tokens(o.balance.value))
  }

  /** An object is topped up to exactly the amount needed if and only if it has fewer whole tokens;
      one that has enough is taken for underfunded exactly if the 64 bits its balance is cut
      to read as a negative or a smaller number. */
  lemma TopUpIsExact(o: Object, need: int)
    requires -TwoTo63 <= need < TwoTo63 && o.shouldFund && o.balance.Some?
    ensures var w := (o.balance.value / Reduction) % (2 * TwoTo63);
            Underfunded(o, need) <==>
              if need >= 0 then w < need || w >= TwoTo63 else TwoTo63 <= w < 2 * TwoTo63 + need
    ensures o.balance.value / Reduction < need <==>
              Underfunded(o, need) && AmountFor(o, need) > 0
              && (o.balance.value + AmountFor(o, need) * Reduction) / 1_000_000_000_000_000_000 == need
  {
    var b := o.balance.value / Reduction;
    LowBits(b);
    if Underfunded(o, need) {
      var a := AmountFor(o, need);
      QuotientIsUnique(o.balance.value + a * Reduction, Reduction, b + a, o.balance.value % Reduction);
    }
  }

  lemma LowBits(x: nat)
    ensures var w := x % (2 * TwoTo63);
            Int64(x) == if w < TwoTo63 then w else w - 2 * TwoTo63
  {
    var m := 2 * TwoTo63;
    var q, w := x / m, x % m;
    if w < TwoTo63 {
      QuotientIsUnique(x + TwoTo63, m, q, w + TwoTo63);
    } else {
      QuotientIsUnique(x + TwoTo63, m, q + 1, w - TwoTo63);
    }
  }

  // ------------------------------------------------------------------ the outputs

  /** What stops the iteration at this object, if anything does. */
  function Trouble(o: Option<Object>, need: int): (t: Option<Outcome>) {
    if o.None? then Some(Failed)
    else if !o.value.shouldFund then None
    else if o.value.balance.None? then Some(Failed)
    else if Underfunded(o.value, need) && AmountFor(o.value, need) < 0 then Some(Panicked)
    else None
  }

  function FirstTrouble(objects: seq<Option<Object>>, need: int): (t: Option<Outcome>) {
    if objects == [] then None
    else
      var t := FirstTrouble(objects[..|objects| - 1], need);
      if t.Some? then t else Trouble(objects[|objects| - 1], need)
  }

  /** One output for each underfunded object, in the order of their ids. */
  function TopUps(objects: seq<Option<Object>>, need: int): (r: seq<Output>) {
    if objects == [] then []
    else
      var r, o := TopUps(objects[..|objects| - 1], need), objects[|objects| - 1];
      if o.Some? && Underfunded(o.value, need)
      then r + [Output(o.value.address, AmountFor(o.value, need) * Reduction)]
      else r
  }

  function SumOutputs(os: seq<Output>): (s: int) {
    if os == [] then 0 else SumOutputs(os[..|os| - 1]) + os[|os| - 1].amount
  }

  function SumInputs(ms: seq<MultiSend>): (s: int) {
    if ms == [] then 0 else SumInputs(ms[..|ms| - 1]) + ms[|ms| - 1].input
  }

  function AllOutputs(ms: seq<MultiSend>): (os: seq<Output>) {
    if ms == [] then [] else AllOutputs(ms[..|ms| - 1]) + ms[|ms| - 1].outputs
  }

  /** A message has one to `limit` outputs, and its input is their sum. */
  predicate Balanced(m: MultiSend, limit: int) {
    1 <= |m.outputs| <= limit && m.input == SumOutputs(m.outputs)
  }

  ghost predicate AllBalanced(ms: seq<MultiSend>, limit: int) {
    forall i :: 0 <= i < |ms| ==> Balanced(ms[i], limit)
  }

  /** All messages are full. */
  ghost predicate AllFull(ms: seq<MultiSend>, limit: int) {
    forall i :: 0 <= i < |ms| ==> |ms[i].outputs| == limit
  }

  /** The last object is one that is considered for funding, so that the rest is flushed there. */
  predicate LastIsFundable(objects: seq<Option<Object>>) {
    objects != [] && objects[|objects| - 1].Some? && objects[|objects| - 1].value.shouldFund
  }

  // ----------------------------------------------------------------- small steps

  lemma SumOutputsPush(os: seq<Output>, o: Output)
    ensures SumOutputs(os + [o]) == SumOutputs(os) + o.amount
  {
    assert (os + [o])[..|os|] == os;
  }

  lemma MessagePush(ms: seq<MultiSend>, m: MultiSend)
    ensures SumInputs(ms + [m]) == SumInputs(ms) + m.input
    ensures AllOutputs(ms + [m]) == AllOutputs(ms) + m.outputs
  {
    assert (ms + [m])[..|ms|] == ms;
  }

  lemma ObjectPush(objects: seq<Option<Object>>, n: nat, need: int)
    requires n < |objects|
    ensures FirstTrouble(objects[..n + 1], need)
         == if FirstTrouble(objects[..n], need).Some? then FirstTrouble(objects[..n], need) else Trouble(objects[n], need)
    ensures var o := objects[n];
            TopUps(objects[..n + 1], need) ==
            if o.Some? && Underfunded(o.value, need)
            then TopUps(objects[..n], need) + [Output(o.value.address, AmountFor(o.value, need) * Reduction)]
            else TopUps(objects[..n], need)
  {
    assert objects[..n + 1][..n] == objects[..n];
  }

  /** What stops the iteration: an object that cannot be loaded, or one to be funded whose balance is unknown
      or so far below the need that the difference does not fit 63 bits; an object that is skipped does not. */
  lemma StopsAtTrouble(objects: seq<Option<Object>>, n: nat, need: int)
    requires -TwoTo63 <= need < TwoTo63 && n < |objects| && FirstTrouble(objects[..n], need).None?
    ensures var o := objects[n];
            FirstTrouble(objects[..n + 1], need) ==
            if o.None? then Some(Failed)
            else if !o.value.shouldFund then None
            else if o.value.balance.None? then Some(Failed)
            else if need - Tokens(o.value.balance.value) >= TwoTo63 then Some(Panicked)
            else None
  {
    hide Int64, FirstTrouble, TopUps;
    ObjectPush(objects, n, need);
    if objects[n].Some? && Underfunded(objects[n].value, need) {
      LowBits(need - Tokens(objects[n].value.balance.value));
    }
  }

  lemma {:induction false} TroubleStays(objects: seq<Option<Object>>, n: nat, need: int)
    requires n <= |objects| && FirstTrouble(objects[..n], need).Some?
    ensures FirstTrouble(objects, need) == FirstTrouble(objects[..n], need)
    decreases |objects|
  {
    if n == |objects| {
      assert objects[..n] == objects;
    } else {
      var init := objects[..|objects| - 1];
      assert init[..n] == objects[..n];
      TroubleStays(init, n, need);
    }
  }

  lemma {:induction false} FullLength(ms: seq<MultiSend>, limit: int)
    requires AllFull(ms, limit) && limit >= 0
    ensures |AllOutputs(ms)| == |ms| * limit
  {
    if ms != [] {
      FullLength(ms[..|ms| - 1], limit);
      Distribute(|ms|, 1, limit);
    }
  }

  // --------------------------------------------------------------------- the loop

  /** The closure's variables after the first `n` objects, all of which went well. A message that
      is not full is only sent at the last object, and then nothing is left over. */
  ghost predicate Collected(
    objects: seq<Option<Object>>, n: nat, need: int, limit: int, msgs: seq<MultiSend>, outputs: seq<Output>, inputAmount: int
  )
    requires n <= |objects|
  {
    && FirstTrouble(objects[..n], need).None?
    && AllBalanced(msgs, limit) && |outputs| < limit && inputAmount * Reduction == SumOutputs(outputs)
    && AllOutputs(msgs) + outputs == TopUps(objects[..n], need)
    && if n == |objects| && LastIsFundable(objects) then outputs == [] else AllFull(msgs, limit)
  }

  /** The messages that are sent: balanced, and together the top-ups of all underfunded objects
      in order of their ids, short of those still pending if the last object is skipped. */
  ghost predicate Delivers(objects: seq<Option<Object>>, need: int, limit: int, msgs: seq<MultiSend>) {
    && limit > 0
    && AllBalanced(msgs, limit)
    && AllOutputs(msgs) <= TopUps(objects, need)
    && |TopUps(objects, need)| - |AllOutputs(msgs)|
       == if LastIsFundable(objects) then 0 else |TopUps(objects, need)| % limit
  }

  lemma CollectedDelivers(
    objects: seq<Option<Object>>, need: int, limit: int, msgs: seq<MultiSend>, outputs: seq<Output>, inputAmount: int
  )
    requires limit > 0 && Collected(objects, |objects|, need, limit, msgs, outputs, inputAmount)
    ensures FirstTrouble(objects, need).None? && Delivers(objects, need, limit, msgs)
  {
    assert objects[..|objects|] == objects;
    if !LastIsFundable(objects) {
      FullLength(msgs, limit);
      QuotientIsUnique(|TopUps(objects, need)|, limit, |msgs|, |outputs|);
    }
  }

  /** One object that is considered: its output is added, and the pending outputs are sent if
      the message is full or the object is the last. */
  lemma CollectStep(
    objects: seq<Option<Object>>, n: nat, need: int, limit: int,
    msgs: seq<MultiSend>, outputs: seq<Output>, inputAmount: int,
    outputs': seq<Output>, inputAmount': int
  )
    requires n < |objects| && limit > 0 && Collected(objects, n, need, limit, msgs, outputs, inputAmount)
    requires Trouble(objects[n], need).None? && objects[n].value.shouldFund
    requires var o := objects[n].value;
             if Underfunded(o, need)
             then outputs' == outputs + [Output(o.address, AmountFor(o, need) * Reduction)]
                  && inputAmount' == inputAmount + AmountFor(o, need)
             else outputs' == outputs && inputAmount' == inputAmount
    ensures if |outputs'| != 0 && (|outputs'| == limit || n + 1 == |objects|)
            then Collected(objects, n + 1, need, limit, msgs + [MultiSend(inputAmount' * Reduction, outputs')], [], 0)
            else Collected(objects, n + 1, need, limit, msgs, outputs', inputAmount')
  {
    hide FirstTrouble, TopUps, SumOutputs, AllOutputs, Underfunded, AmountFor;
    ObjectPush(objects, n, need);
    var o := objects[n].value;
    if Underfunded(o, need) {
      SumOutputsPush(outputs, Output(o.address, AmountFor(o, need) * Reduction));
      assert AllOutputs(msgs) + outputs' == (AllOutputs(msgs) + outputs) + [outputs'[|outputs|]];
    }
    var m := MultiSend(inputAmount' * Reduction, outputs');
    MessagePush(msgs, m);
    NoOutputs();
    assert AllOutputs(msgs + [m]) + [] == AllOutputs(msgs) + outputs';
  }

  lemma NoOutputs()
    ensures SumOutputs([]) == 0
  {
  }

  lemma CollectSkip(
    objects: seq<Option<Object>>, n: nat, need: int, limit: int, msgs: seq<MultiSend>, outputs: seq<Output>, inputAmount: int
  )
    requires n < |objects| && Collected(objects, n, need, limit, msgs, outputs, inputAmount)
    requires objects[n].Some? && !objects[n].value.shouldFund
    ensures Collected(objects, n + 1, need, limit, msgs, outputs, inputAmount)
  {
    hide FirstTrouble, TopUps, SumOutputs, AllOutputs;
    ObjectPush(objects, n, need);
  }

  /** The iteration with its closure: the messages and their total, or what stopped it. */
  method CollectMessages(objects: seq<Option<Object>>, need: int, limit: int)
    returns (trouble: Option<Outcome>, multiSendMsgs: seq<MultiSend>, totalInputAmount: int)
    requires limit > 0
    ensures trouble == FirstTrouble(objects, need)
    ensures trouble.None? ==> Delivers(objects, need, limit, multiSendMsgs) && totalInputAmount == SumInputs(multiSendMsgs)
  {
    hide FirstTrouble, TopUps, SumOutputs, SumInputs, AllOutputs, Collected, Delivers, Int64, Tokens;
    multiSendMsgs, totalInputAmount := [], 0;
    var outputs: seq<Output>, inputAmount := [], 0;
    CollectStart(objects, need, limit);
    for n := 0 to |objects|
      invariant Collected(objects, n, need, limit, multiSendMsgs, outputs, inputAmount)
      invariant totalInputAmount == SumInputs(multiSendMsgs)
    {
      CollectedIsFine(objects, n, need, limit, multiSendMsgs, outputs, inputAmount);
      StopsHere(objects, n, need);
      if objects[n].None? {
        return Some(Failed), [], 0;
      }
      var candidate := objects[n].value;
      if !candidate.shouldFund {
        CollectSkip(objects, n, need, limit, multiSendMsgs, outputs, inputAmount);
        continue;
      }
      if candidate.balance.None? {
        return Some(Failed), [], 0;
      }
      ghost var outputs0, inputAmount0 := outputs, inputAmount;
      var imuaBalance := Tokens(candidate.balance.value);
      if imuaBalance < need {
        var amount := Int64(need - imuaBalance);
        if amount < 0 {
          return Some(Panicked), [], 0;
        }
        inputAmount := inputAmount + amount;
        outputs := outputs + [Output(candidate.address, amount * Reduction)];
      }
      CollectStep(objects, n, need, limit, multiSendMsgs, outputs0, inputAmount0, outputs, inputAmount);
      if |outputs| != 0 && (|outputs| == limit || n + 1 == |objects|) {
        var inputHuaAmount := inputAmount * Reduction;
        totalInputAmount := totalInputAmount + inputHuaAmount;
        MessagePush(multiSendMsgs, MultiSend(inputHuaAmount, outputs));
        multiSendMsgs := multiSendMsgs + [MultiSend(inputHuaAmount, outputs)];
        inputAmount := 0;
        outputs := [];
      }
    }
    CollectedDelivers(objects, need, limit, multiSendMsgs, outputs, inputAmount);
    return None, multiSendMsgs, totalInputAmount;
  }

  /** Trouble at the first object that has any ends the iteration. */
  lemma StopsHere(objects: seq<Option<Object>>, n: nat, need: int)
    requires n < |objects| && FirstTrouble(objects[..n], need).None?
    ensures Trouble(objects[n], need).Some? ==> FirstTrouble(objects, need) == Trouble(objects[n], need)
  {
    hide FirstTrouble, Trouble, TopUps;
    ObjectPush(objects, n, need);
    if Trouble(objects[n], need).Some? {
      TroubleStays(objects, n + 1, need);
    }
  }

  /** The outcomes of an iteration without trouble. */
  ghost predicate Reports(
    objects: seq<Option<Object>>, need: int, limit: int, faucet: Option<nat>, sends: bool, r: Outcome
  )
    requires limit > 0
  {
    match r
    case NothingToFund => Delivers(objects, need, limit, [])
    case Send(msgs, total, sent) =>
      && msgs != [] && Delivers(objects, need, limit, msgs) && sent == sends
      && faucet.Some? && total == SumInputs(msgs) <= faucet.value
    case Failed =>
      exists msgs :: msgs != [] && Delivers(objects, need, limit, msgs) && (faucet.Some? ==> SumInputs(msgs) > faucet.value)
    case Panicked => false
  }

  /** `FundingObjects`: the messages are sent if the faucet can pay for all of them. The objects are
      `None` if they cannot be counted, the faucet's balance is if it cannot be queried, and `sends`
      tells whether sending succeeds. */
  method FundingObjects(
    objects: Option<seq<Option<Object>>>, need: int, limit: int, clients: nat, faucet: Option<nat>, sends: bool
  ) returns (r: Outcome)
    ensures limit <= 0 || clients == 0 || objects.None? ==> r == Failed
    ensures limit > 0 && clients > 0 && objects.Some? && FirstTrouble(objects.value, need).Some? ==>
              r == FirstTrouble(objects.value, need).value
    ensures limit > 0 && clients > 0 && objects.Some? && FirstTrouble(objects.value, need).None? ==>
              Reports(objects.value, need, limit, faucet, sends, r)
  {
    hide FirstTrouble, SumInputs, Delivers;
    if limit <= 0 {
      return Failed;
    }
    if clients == 0 {
      return Failed;
    }
    if objects.None? {
      return Failed;
    }
    var trouble, multiSendMsgs, totalInputAmount := CollectMessages(objects.value, need, limit);
    if trouble.Some? {
      return trouble.value;
    }
    if |multiSendMsgs| == 0 {
      return NothingToFund;
    }
    if faucet.None? || faucet.value < totalInputAmount {
      return Failed;
    }
    return Send(multiSendMsgs, totalInputAmount, sends);
  }

  lemma CollectStart(objects: seq<Option<Object>>, need: int, limit: int)
    requires limit > 0
    ensures Collected(objects, 0, need, limit, [], [], 0) && SumInputs([]) == 0
  {
  }

  lemma CollectedIsFine(
    objects: seq<Option<Object>>, n: nat, need: int, limit: int, msgs: seq<MultiSend>, outputs: seq<Output>, inputAmount: int
  )
    requires n <= |objects| && Collected(objects, n, need, limit, msgs, outputs, inputAmount)
    ensures FirstTrouble(objects[..n], need).None?
  {
  }

  // -------------------------------------------------------------------- the result

  /** Every top-up is sent exactly when the last object is fundable or the number of underfunded
      objects fills the messages evenly; else the last ones are dropped. */
  lemma AllTopUpsAreSent(objects: seq<Option<Object>>, need: int, limit: int, msgs: seq<MultiSend>)
    requires Delivers(objects, need, limit, msgs)
    ensures AllOutputs(msgs) == TopUps(objects, need) <==>
              LastIsFundable(objects) || |TopUps(objects, need)| % limit == 0
  {
  }

  /** For one: of two objects, an underfunded one and then one that is skipped, neither is paid
      although no error is reported. */
  lemma SkippedLastObject(o: Object, skipped: Object, need: int, limit: int)
    requires Underfunded(o, need) && AmountFor(o, need) >= 0 && !skipped.shouldFund && limit > 1
    ensures var objects := [Some(o), Some(skipped)];
            && FirstTrouble(objects, need).None? && TopUps(objects, need) != []
            && forall msgs :: Delivers(objects, need, limit, msgs) <==> msgs == []
  {
    hide AmountFor, Tokens;
    var objects := [Some(o), Some(skipped)];
    assert objects[..2] == objects && objects[..0] == [];
    ObjectPush(objects, 0, need);
    ObjectPush(objects, 1, need);
    assert |TopUps(objects, need)| == 1;
    QuotientIsUnique(1, limit, 0, 1);
    forall msgs | AllBalanced(msgs, limit)
      ensures AllOutputs(msgs) == [] <==> msgs == []
    {
      MessagesGiveOut(msgs, limit);
    }
  }

  lemma MessagesGiveOut(msgs: seq<MultiSend>, limit: int)
    requires AllBalanced(msgs, limit)
    ensures AllOutputs(msgs) == [] <==> msgs == []
  {
    if msgs != [] {
      assert Balanced(msgs[|msgs| - 1], limit);
    }
  }

  lemma {:induction false} SumOutputsConcat(a: seq<Output>, b: seq<Output>)
    ensures SumOutputs(a + b) == SumOutputs(a) + SumOutputs(b)
    decreases |b|
  {
    if b == [] {
      assert a + b == a;
    } else {
      assert (a + b)[..|a + b| - 1] == a + b[..|b| - 1];
      SumOutputsConcat(a, b[..|b| - 1]);
    }
  }

  /** Amounts are conserved: what the messages take in is what they give out. */
  lemma {:induction false} InputsEqualOutputs(msgs: seq<MultiSend>, limit: int)
    requires AllBalanced(msgs, limit)
    ensures SumInputs(msgs) == SumOutputs(AllOutputs(msgs))
  {
    if msgs != [] {
      InputsEqualOutputs(msgs[..|msgs| - 1], limit);
      SumOutputsConcat(AllOutputs(msgs[..|msgs| - 1]), msgs[|msgs| - 1].outputs);
    }
  }
}
