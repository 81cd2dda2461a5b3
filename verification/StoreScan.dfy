/** `GenericIterateStoreWithUpdate` of utils/store.go. */
module StoreScan {
  import opened Common
  import opened Order
  import opened ByteOrder
  import opened JoinedKeys

  /** A key-value store. */
  class Store {
    var data: map<Bytes, Bytes>
  }

  /** What the callback answers for one entry; `state` is what it keeps between calls and
      `value` what it leaves in the value passed by reference. */
  datatype Answer<+S, +V> = Failed | Ok(isBreak: bool, isChanged: bool, value: V, state: S)

  /** The arguments of a scan. */
  datatype Job<!S, !V> = Job(
    keyPrefix: Bytes,
    iteratePrefix: Bytes,
    isUpdate: bool,
    keyNumber: int,
    unmarshal: Bytes -> Option<V>,
    marshal: V -> Bytes,
    op: (S, seq<Bytes>, V) -> Answer<S, V>)

  /** The keys an iterator visits, without the prefix of the store. */
  function Visited(data: map<Bytes, Bytes>, keyPrefix: Bytes, iteratePrefix: Bytes): (r: set<Bytes>)
    ensures forall k :: k in r <==> iteratePrefix <= k && keyPrefix + k in data
  {
    var r := set k | k in data && keyPrefix + iteratePrefix <= k :: k[|keyPrefix|..];
    assert forall k :: k in r ==> iteratePrefix <= k && keyPrefix + k in data by {
      forall k | k in r
        ensures iteratePrefix <= k && keyPrefix + k in data
      {
        var full :| full in data && keyPrefix + iteratePrefix <= full && k == full[|keyPrefix|..];
        assert full == keyPrefix + k;
      }
    }
    assert forall k :: iteratePrefix <= k && keyPrefix + k in data ==> k in r by {
      forall k | iteratePrefix <= k && keyPrefix + k in data
        ensures k in r
      {
        assert keyPrefix + iteratePrefix <= keyPrefix + k;
        assert (keyPrefix + k)[|keyPrefix|..] == k;
      }
    }
    r
  }

  // ------------------------------------------------------------------ the fold

  /** One entry: its key is parsed, its value unmarshalled, and the callback asked. */
  function Process<S, V>(j: Job<S, V>, data: map<Bytes, Bytes>, s: S, k: Bytes): (a: Answer<S, V>)
    requires j.keyPrefix + k in data
  {
    match ParseJoinedKeyWithCount(k, j.keyNumber)
    case None => Failed
    case Some(keys) =>
      match j.unmarshal(data[j.keyPrefix + k])
      case None => Failed
      case Some(v) => j.op(s, keys, v)
  }

  datatype Progress<+S> = Error | Running(state: S) | Stopped(state: S)

  ghost predicate Present<S, V>(j: Job<S, V>, data: map<Bytes, Bytes>, keys: seq<Bytes>) {
    forall i :: 0 <= i < |keys| ==> j.keyPrefix + keys[i] in data
  }

  /** The fold over the first `n` keys, which stops at an error or a break. */
  ghost function Fold<S, V>(j: Job<S, V>, data: map<Bytes, Bytes>, keys: seq<Bytes>, s0: S, n: nat): (p: Progress<S>)
    requires n <= |keys| && Present(j, data, keys)
  {
    if n == 0 then Running(s0)
    else
      var p := Fold(j, data, keys, s0, n - 1);
      if !p.Running? then p
      else
        match Process(j, data, p.state, keys[n - 1])
        case Failed => Error
        case Ok(isBreak, _, _, s) => if isBreak then Stopped(s) else Running(s)
  }

  /** What the scan writes back for the `i`-th key: the changed value of an entry that was
      reached and did not break off the scan. */
  ghost function NewValue<S, V>(j: Job<S, V>, data: map<Bytes, Bytes>, keys: seq<Bytes>, s0: S, i: nat): (v: Option<Bytes>)
    requires i < |keys| && Present(j, data, keys)
  {
    var p := Fold(j, data, keys, s0, i);
    if !p.Running? || !j.isUpdate then None
    else
      match Process(j, data, p.state, keys[i])
      case Failed => None
      case Ok(isBreak, isChanged, v, _) => if !isBreak && isChanged then Some(j.marshal(v)) else None
  }

  ghost function Updated<S, V>(j: Job<S, V>, data: map<Bytes, Bytes>, keys: seq<Bytes>, s0: S, n: nat): (d: map<Bytes, Bytes>)
    requires n <= |keys| && Present(j, data, keys)
    ensures d.Keys == data.Keys
  {
    if n == 0 then data
    else
      var d := Updated(j, data, keys, s0, n - 1);
      match NewValue(j, data, keys, s0, n - 1)
      case None => d
      case Some(v) => d[j.keyPrefix + keys[n - 1] := v]
  }

  /** Once the fold has stopped nothing changes any more. */
  lemma {:induction false} StoppedFold<S, V>(j: Job<S, V>, data: map<Bytes, Bytes>, keys: seq<Bytes>, s0: S, m: nat, n: nat)
    requires m <= n <= |keys| && Present(j, data, keys) && !Fold(j, data, keys, s0, m).Running?
    ensures Fold(j, data, keys, s0, n) == Fold(j, data, keys, s0, m)
    ensures Updated(j, data, keys, s0, n) == Updated(j, data, keys, s0, m)
    decreases n
  {
    if m < n {
      StoppedFold(j, data, keys, s0, m, n - 1);
    }
  }

  /** A scan succeeds unless the callback, the parser or the unmarshaller fails on an entry
      that is reached. */
  lemma {:induction false} FoldFails<S, V>(j: Job<S, V>, data: map<Bytes, Bytes>, keys: seq<Bytes>, s0: S, n: nat)
    requires n <= |keys| && Present(j, data, keys)
    ensures Fold(j, data, keys, s0, n).Error? <==>
              exists i :: 0 <= i < n && Fold(j, data, keys, s0, i).Running?
                          && Process(j, data, Fold(j, data, keys, s0, i).state, keys[i]).Failed?
  {
    if n > 0 {
      FoldFails(j, data, keys, s0, n - 1);
    }
  }

  ghost predicate NoRepeats(keys: seq<Bytes>) {
    forall i, k :: 0 <= i < k < |keys| ==> keys[i] != keys[k]
  }

  function ValueOr(v: Option<Bytes>, default: Bytes): (b: Bytes) {
    if v.Some? then v.value else default
  }

  lemma PrefixedKeysDiffer(p: Bytes, a: Bytes, b: Bytes)
    requires a != b
    ensures p + a != p + b
  {
    assert (p + a)[|p|..] == a && (p + b)[|p|..] == b;
  }

  lemma UpdatedStep<S, V>(j: Job<S, V>, data: map<Bytes, Bytes>, keys: seq<Bytes>, s0: S, n: nat, full: Bytes)
    requires n < |keys| && Present(j, data, keys) && full in data
    ensures Updated(j, data, keys, s0, n + 1)[full] ==
            if full == j.keyPrefix + keys[n]
            then ValueOr(NewValue(j, data, keys, s0, n), Updated(j, data, keys, s0, n)[full])
            else Updated(j, data, keys, s0, n)[full]
  {
    hide NewValue;
  }

  /** A key that is not among those from `m` to `n` is not touched by them. */
  lemma {:induction false} UpdatedElsewhere<S, V>(
    j: Job<S, V>, data: map<Bytes, Bytes>, keys: seq<Bytes>, s0: S, m: nat, n: nat, full: Bytes
  )
    requires m <= n <= |keys| && Present(j, data, keys) && full in data
    requires forall i :: m <= i < n ==> j.keyPrefix + keys[i] != full
    ensures Updated(j, data, keys, s0, n)[full] == Updated(j, data, keys, s0, m)[full]
    decreases n
  {
    if m < n {
      hide Updated, NewValue;
      UpdatedElsewhere(j, data, keys, s0, m, n - 1, full);
      UpdatedStep(j, data, keys, s0, n - 1, full);
    }
  }

  lemma OtherKeysDiffer<S, V>(j: Job<S, V>, keys: seq<Bytes>, i: nat)
    requires i < |keys| && NoRepeats(keys)
    ensures forall m :: 0 <= m < |keys| && m != i ==> j.keyPrefix + keys[m] != j.keyPrefix + keys[i]
  {
    forall m | 0 <= m < |keys| && m != i
      ensures j.keyPrefix + keys[m] != j.keyPrefix + keys[i]
    {
      PrefixedKeysDiffer(j.keyPrefix, keys[m], keys[i]);
    }
  }

  lemma UpdatedAt<S, V>(j: Job<S, V>, data: map<Bytes, Bytes>, keys: seq<Bytes>, s0: S, i: nat)
    requires i < |keys| && Present(j, data, keys) && NoRepeats(keys)
    ensures Updated(j, data, keys, s0, |keys|)[j.keyPrefix + keys[i]]
         == ValueOr(NewValue(j, data, keys, s0, i), data[j.keyPrefix + keys[i]])
  {
    var full := j.keyPrefix + keys[i];
    assert Updated(j, data, keys, s0, 0) == data;
    hide Updated, NewValue, NoRepeats;
    OtherKeysDiffer(j, keys, i);
    UpdatedElsewhere(j, data, keys, s0, 0, i, full);
    UpdatedStep(j, data, keys, s0, i, full);
    UpdatedElsewhere(j, data, keys, s0, i + 1, |keys|, full);
  }

  lemma SnapshotProperties<S, V>(j: Job<S, V>, data: map<Bytes, Bytes>)
    ensures Sorted(ByteLess, Snapshot(j, data)) && NoRepeats(Snapshot(j, data))
    ensures forall k :: k in Snapshot(j, data) <==> j.iteratePrefix <= k && j.keyPrefix + k in data
  {
    ByteLessIsStrict();
  }

  /** After a scan that succeeds the store has the same keys; the entries outside the prefix
      are as before; and of those inside, exactly the ones the fold changed are overwritten. */
  lemma ScanEffect<S, V>(j: Job<S, V>, data: map<Bytes, Bytes>, s0: S, full: Bytes)
    requires full in data
    ensures var keys := Snapshot(j, data);
            var after := Updated(j, data, keys, s0, |keys|);
            && after.Keys == data.Keys
            && (!(j.keyPrefix + j.iteratePrefix <= full) ==> after[full] == data[full])
            && (j.keyPrefix + j.iteratePrefix <= full ==>
                  exists i :: 0 <= i < |keys| && j.keyPrefix + keys[i] == full
                    && after[full] == ValueOr(NewValue(j, data, keys, s0, i), data[full]))
  {
    hide Snapshot, Updated, NewValue;
    var keys := Snapshot(j, data);
    SnapshotProperties(j, data);
    if j.keyPrefix + j.iteratePrefix <= full {
      var k := full[|j.keyPrefix|..];
      assert full == j.keyPrefix + k;
      assert k in keys;
      var i :| 0 <= i < |keys| && keys[i] == k;
      UpdatedAt(j, data, keys, s0, i);
    } else {
      forall i | 0 <= i < |keys|
        ensures j.keyPrefix + keys[i] != full
      {
        assert keys[i] in keys;
        assert j.keyPrefix + j.iteratePrefix <= j.keyPrefix + keys[i];
      }
      assert Updated(j, data, keys, s0, 0) == data by { FoldStart(j, data, keys, s0); }
      UpdatedElsewhere(j, data, keys, s0, 0, |keys|, full);
    }
  }

  /** A scan by the prefix key of components `ps` visits exactly the stored tuples that extend them. */
  lemma ScanVisitsTuples<S, V>(j: Job<S, V>, data: map<Bytes, Bytes>, ps: seq<Bytes>, k: Bytes)
    requires ps != [] && Free(ps, Slash) && j.iteratePrefix == GetJoinedStoreKeyForPrefix(ps)
    ensures k in Snapshot(j, data) <==> j.keyPrefix + k in data && ProperPrefix(ps, ParseJoinedKey(k))
  {
    hide Snapshot;
    SnapshotProperties(j, data);
    PrefixScan(ps, k);
  }

  // ------------------------------------------------------------------- the calls

  /** At stored key `k`, whose components are `t` and whose value is `v`, the callback answers `a`. */
  ghost predicate Asks<S, V>(j: Job<S, V>, data: map<Bytes, Bytes>, k: Bytes, s: S, t: seq<Bytes>, v: V, a: Answer<S, V>) {
    && t != [] && Free(t, Slash) && k == GetJoinedStoreKey(t) && |t| == j.keyNumber
    && j.keyPrefix + k in data && j.unmarshal(data[j.keyPrefix + k]) == Some(v)
    && j.op(s, t, v) == a
  }

  lemma AskedWithComponents<S, V>(
    j: Job<S, V>, data: map<Bytes, Bytes>, k: Bytes, s: S, t: seq<Bytes>, v: V, a: Answer<S, V>
  )
    requires Asks(j, data, k, s, t, v, a)
    ensures Process(j, data, s, k) == a
  {
    ParseJoined(t, j.keyNumber);
  }

  ghost predicate Answers<S(!new), V(!new)>(j: Job<S, V>, data: map<Bytes, Bytes>, k: Bytes, s: S, a: Answer<S, V>) {
    exists t, v :: Asks(j, data, k, s, t, v, a)
  }

  /** The calls made for the first keys, none of which fails or breaks off the scan: `states` are what
      the callback keeps, starting with what it has before the first call. */
  ghost predicate Calls<S(!new), V(!new)>(
    j: Job<S, V>, data: map<Bytes, Bytes>, keys: seq<Bytes>, states: seq<S>, answers: seq<Answer<S, V>>
  ) {
    && |states| == |answers| + 1 && |answers| <= |keys|
    && forall i :: 0 <= i < |answers| ==>
         && answers[i].Ok? && !answers[i].isBreak && answers[i].state == states[i + 1]
         && Answers(j, data, keys[i], states[i], answers[i])
  }

  lemma {:induction false} CallsOfFold<S(!new), V(!new)>(
    j: Job<S, V>, data: map<Bytes, Bytes>, keys: seq<Bytes>, states: seq<S>, answers: seq<Answer<S, V>>, n: nat
  )
    requires Present(j, data, keys) && Calls(j, data, keys, states, answers) && n <= |answers|
    ensures Fold(j, data, keys, states[0], n) == Running(states[n])
  {
    if n > 0 {
      CallsOfFold(j, data, keys, states, answers, n - 1);
      var t, v :| Asks(j, data, keys[n - 1], states[n - 1], t, v, answers[n - 1]);
      AskedWithComponents(j, data, keys[n - 1], states[n - 1], t, v, answers[n - 1]);
    }
  }

  lemma CallOfUpdate<S(!new), V(!new)>(
    j: Job<S, V>, data: map<Bytes, Bytes>, keys: seq<Bytes>, states: seq<S>, answers: seq<Answer<S, V>>, i: nat
  )
    requires Present(j, data, keys) && Calls(j, data, keys, states, answers) && i < |answers|
    ensures NewValue(j, data, keys, states[0], i)
         == if j.isUpdate && answers[i].isChanged then Some(j.marshal(answers[i].value)) else None
  {
    hide Fold;
    CallsOfFold(j, data, keys, states, answers, i);
    var t, v :| Asks(j, data, keys[i], states[i], t, v, answers[i]);
    AskedWithComponents(j, data, keys[i], states[i], t, v, answers[i]);
  }

  lemma CallsWithin<S(!new), V(!new)>(
    j: Job<S, V>, data: map<Bytes, Bytes>, keys: seq<Bytes>, states: seq<S>, answers: seq<Answer<S, V>>
  )
    requires Calls(j, data, keys, states, answers)
    ensures |states| == |answers| + 1 && |answers| <= |keys|
  {
  }

  /** Key `k` does not have the right number of components, or its value cannot be unmarshalled. */
  ghost predicate Unreadable<S(!new), V(!new)>(j: Job<S, V>, data: map<Bytes, Bytes>, k: Bytes, s: S) {
    forall t, v, a :: !Asks(j, data, k, s, t, v, a)
  }

  lemma UnreadableFails<S(!new), V(!new)>(j: Job<S, V>, data: map<Bytes, Bytes>, k: Bytes, s: S)
    requires j.keyPrefix + k in data
    ensures Unreadable(j, data, k, s) ==> Process(j, data, s, k) == Failed
    ensures !Unreadable(j, data, k, s) ==> Answers(j, data, k, s, Process(j, data, s, k))
  {
    var t := ParseJoinedKey(k);
    SplitIsFree(k, Slash);
    JoinUndoesSplit(k, Slash);
    var value := j.unmarshal(data[j.keyPrefix + k]);
    if |t| == j.keyNumber && value.Some? {
      assert Asks(j, data, k, s, t, value.value, Process(j, data, s, k));
    } else {
      forall t', v, a
        ensures !Asks(j, data, k, s, t', v, a)
      {
        if t' != [] && Free(t', Slash) && k == GetJoinedStoreKey(t') {
          SplitUndoesJoin(t', Slash);
        }
      }
    }
  }

  /** The scan ends after these calls: the keys are used up, or the next one cannot be read, or the
      callback's next answer, `last`, fails or breaks off. */
  ghost predicate EndsWith<S(!new), V(!new)>(
    j: Job<S, V>, data: map<Bytes, Bytes>, keys: seq<Bytes>, states: seq<S>, answers: seq<Answer<S, V>>, last: Answer<S, V>
  )
    requires |states| == |answers| + 1 && |answers| <= |keys|
  {
    var n := |answers|;
    || n == |keys|
    || (Unreadable(j, data, keys[n], states[n]) && last.Failed?)
    || ((last.Failed? || last.isBreak) && Answers(j, data, keys[n], states[n], last))
  }

  /** How a scan ends, by the calls it makes: in ascending order of the matching keys it asks the callback
      with the components and the value of each, until it ends. It then fails exactly if the last
      answer does or there was none to ask for, and else has the callback's last state. */
  lemma ScanMakesCalls<S(!new), V(!new)>(
    j: Job<S, V>, data: map<Bytes, Bytes>, states: seq<S>, answers: seq<Answer<S, V>>, last: Answer<S, V>
  )
    requires Calls(j, data, Snapshot(j, data), states, answers)
    requires EndsWith(j, data, Snapshot(j, data), states, answers, last)
    ensures var keys, n := Snapshot(j, data), |answers|;
            Fold(j, data, keys, states[0], |keys|) ==
            if n == |keys| then Running(states[n]) else if last.Failed? then Error else Stopped(last.state)
  {
    var keys, n := Snapshot(j, data), |answers|;
    hide Snapshot, Calls, Answers, Process, EndsWith;
    CallsWithin(j, data, keys, states, answers);
    CallsOfFold(j, data, keys, states, answers, n);
    if n < |keys| {
      LastAnswer(j, data, keys, states, answers, last);
      StoppedFold(j, data, keys, states[0], n + 1, |keys|);
    }
  }

  lemma LastAnswer<S(!new), V(!new)>(
    j: Job<S, V>, data: map<Bytes, Bytes>, keys: seq<Bytes>, states: seq<S>, answers: seq<Answer<S, V>>, last: Answer<S, V>
  )
    requires Present(j, data, keys) && |states| == |answers| + 1 && |answers| < |keys|
    requires EndsWith(j, data, keys, states, answers, last)
    ensures Process(j, data, states[|answers|], keys[|answers|]) == last && (last.Ok? ==> last.isBreak)
  {
    hide Process, Unreadable;
    var n := |answers|;
    UnreadableFails(j, data, keys[n], states[n]);
    if Answers(j, data, keys[n], states[n], last) {
      var t, v :| Asks(j, data, keys[n], states[n], t, v, last);
      AskedWithComponents(j, data, keys[n], states[n], t, v, last);
    }
  }

  /** What a scan that succeeds leaves at the `i`-th matching key: the value an answer changed, if
      the scan went on after that answer, and else the old value. */
  lemma ScanWritesChanges<S(!new), V(!new)>(
    j: Job<S, V>, data: map<Bytes, Bytes>, states: seq<S>, answers: seq<Answer<S, V>>, last: Answer<S, V>, i: nat
  )
    requires Calls(j, data, Snapshot(j, data), states, answers) && i < |Snapshot(j, data)|
    requires EndsWith(j, data, Snapshot(j, data), states, answers, last)
    ensures var keys := Snapshot(j, data);
            Updated(j, data, keys, states[0], |keys|)[j.keyPrefix + keys[i]] ==
            if i < |answers| && j.isUpdate && answers[i].isChanged then j.marshal(answers[i].value)
            else data[j.keyPrefix + keys[i]]
  {
    var keys, n := Snapshot(j, data), |answers|;
    SnapshotProperties(j, data);
    UpdatedAt(j, data, keys, states[0], i);
    hide Snapshot, Updated, Calls, Answers, Process, Fold;
    if i < n {
      CallOfUpdate(j, data, keys, states, answers, i);
    } else {
      CallsOfFold(j, data, keys, states, answers, n);
      LastAnswer(j, data, keys, states, answers, last);
      LastIsNotWritten(j, data, keys, states[0], n, i);
    }
  }

  lemma LastIsNotWritten<S, V>(j: Job<S, V>, data: map<Bytes, Bytes>, keys: seq<Bytes>, s0: S, n: nat, i: nat)
    requires n <= i < |keys| && Present(j, data, keys) && Fold(j, data, keys, s0, n).Running?
    requires var a := Process(j, data, Fold(j, data, keys, s0, n).state, keys[n]);
             a.Ok? ==> a.isBreak
    ensures NewValue(j, data, keys, s0, i) == None
  {
    hide Process;
    if i > n {
      StoppedFold(j, data, keys, s0, n + 1, i);
    }
  }

  lemma OneMoreCall<S(!new), V(!new)>(
    j: Job<S, V>, data: map<Bytes, Bytes>, keys: seq<Bytes>, states: seq<S>, answers: seq<Answer<S, V>>, a: Answer<S, V>
  )
    requires Calls(j, data, keys, states, answers) && |answers| < |keys| && a.Ok? && !a.isBreak
    requires Answers(j, data, keys[|answers|], states[|answers|], a)
    ensures Calls(j, data, keys, states + [a.state], answers + [a])
  {
    hide Answers;
  }

  /** Every scan makes such calls. */
  lemma {:induction false} CallsOfScan<S(!new), V(!new)>(j: Job<S, V>, data: map<Bytes, Bytes>, keys: seq<Bytes>, s0: S)
    returns (states: seq<S>, answers: seq<Answer<S, V>>, last: Answer<S, V>)
    requires Present(j, data, keys)
    ensures Calls(j, data, keys, states, answers) && states[0] == s0 && EndsWith(j, data, keys, states, answers, last)
    decreases |keys|
  {
    hide Answers, Process, Unreadable;
    states, answers, last := [s0], [], Failed;
    while |answers| < |keys|
      invariant Calls(j, data, keys, states, answers) && states[0] == s0
      decreases |keys| - |answers|
    {
      var n := |answers|;
      UnreadableFails(j, data, keys[n], states[n]);
      last := Process(j, data, states[n], keys[n]);
      if last.Failed? || last.isBreak {
        return;
      }
      OneMoreCall(j, data, keys, states, answers, last);
      states, answers := states + [last.state], answers + [last];
    }
  }

  /** A callback that only records what it is asked. */
  ghost predicate Records<V(!new)>(op: (seq<(seq<Bytes>, V)>, seq<Bytes>, V) -> Answer<seq<(seq<Bytes>, V)>, V>) {
    forall s, t, v :: op(s, t, v) == Ok(false, false, v, s + [(t, v)])
  }

  /** The record is the list of the first `n` keys, split, with their values. */
  ghost predicate IsRecord<V(!new)>(
    j: Job<seq<(seq<Bytes>, V)>, V>, data: map<Bytes, Bytes>, keys: seq<Bytes>, record: seq<(seq<Bytes>, V)>, n: nat
  )
    requires n <= |keys| && Present(j, data, keys)
  {
    |record| == n && forall i :: 0 <= i < n ==>
      && record[i].0 != [] && Free(record[i].0, Slash) && keys[i] == GetJoinedStoreKey(record[i].0)
      && j.unmarshal(data[j.keyPrefix + keys[i]]) == Some(record[i].1)
  }

  lemma {:induction false} RecordOfFold<V(!new)>(
    j: Job<seq<(seq<Bytes>, V)>, V>, data: map<Bytes, Bytes>, keys: seq<Bytes>, n: nat
  )
    requires Records(j.op) && Present(j, data, keys) && n <= |keys|
    requires forall i :: 0 <= i < |keys| ==> !Unreadable(j, data, keys[i], [])
    ensures var p := Fold(j, data, keys, [], n);
            p.Running? && IsRecord(j, data, keys, p.state, n)
  {
    if n > 0 {
      hide Fold, Asks, Process, IsRecord;
      RecordOfFold(j, data, keys, n - 1);
      var s := Fold(j, data, keys, [], n - 1).state;
      var t, v := RecordedAnswer(j, data, keys, n - 1, s);
      hide NewValue, Updated;
      FoldStep(j, data, keys, [], n - 1, s);
    }
  }

  lemma RecordedAnswer<V(!new)>(
    j: Job<seq<(seq<Bytes>, V)>, V>, data: map<Bytes, Bytes>, keys: seq<Bytes>, n: nat, s: seq<(seq<Bytes>, V)>
  ) returns (t: seq<Bytes>, v: V)
    requires Records(j.op) && Present(j, data, keys) && n < |keys| && IsRecord(j, data, keys, s, n)
    requires !Unreadable(j, data, keys[n], [])
    ensures Process(j, data, s, keys[n]) == Ok(false, false, v, s + [(t, v)])
    ensures IsRecord(j, data, keys, s + [(t, v)], n + 1)
  {
    var k := keys[n];
    hide Process, GetJoinedStoreKey, Free;
    var a;
    t, v, a :| Asks(j, data, k, [], t, v, a);
    assert Asks(j, data, k, s, t, v, j.op(s, t, v));
    AskedWithComponents(j, data, k, s, t, v, j.op(s, t, v));
  }

  /** If every matching entry can be read, a scan that records its calls leaves the store alone and records
      the tuples of all matching keys with their values, in ascending order of the keys. */
  lemma RecordedScan<V(!new)>(j: Job<seq<(seq<Bytes>, V)>, V>, data: map<Bytes, Bytes>)
    requires Records(j.op)
    requires forall k :: k in Snapshot(j, data) ==> !Unreadable(j, data, k, [])
    ensures var keys := Snapshot(j, data);
            var p := Fold(j, data, keys, [], |keys|);
            && p.Running? && IsRecord(j, data, keys, p.state, |keys|) && Sorted(ByteLess, keys)
            && forall k :: k in keys <==> j.iteratePrefix <= k && j.keyPrefix + k in data
  {
    hide Snapshot, Fold, Unreadable, IsRecord;
    SnapshotProperties(j, data);
    RecordOfFold(j, data, Snapshot(j, data), |Snapshot(j, data)|);
  }

  // ------------------------------------------------------------------ the method

  /** The collected updates, written in order. */
  ghost function Apply<S, V>(j: Job<S, V>, data: map<Bytes, Bytes>, us: seq<(Bytes, V)>): (d: map<Bytes, Bytes>) {
    if us == [] then data
    else Apply(j, data, us[..|us| - 1])[j.keyPrefix + us[|us| - 1].0 := j.marshal(us[|us| - 1].1)]
  }

  lemma ApplyPush<S, V>(j: Job<S, V>, data: map<Bytes, Bytes>, us: seq<(Bytes, V)>, k: Bytes, v: V)
    ensures Apply(j, data, us + [(k, v)]) == Apply(j, data, us)[j.keyPrefix + k := j.marshal(v)]
  {
    assert (us + [(k, v)])[..|us|] == us;
  }

  ghost function Snapshot<S, V>(j: Job<S, V>, data: map<Bytes, Bytes>): (keys: seq<Bytes>)
    ensures Present(j, data, keys)
  {
    ByteLessIsStrict();
    var keys := Listing(ByteLess, Visited(data, j.keyPrefix, j.iteratePrefix));
    assert forall i :: 0 <= i < |keys| ==> keys[i] in keys;
    keys
  }

  /** One round of the scan in terms of the fold. */
  lemma FoldStep<S, V>(j: Job<S, V>, data: map<Bytes, Bytes>, keys: seq<Bytes>, s0: S, i: nat, s: S)
    requires i < |keys| && Present(j, data, keys) && Fold(j, data, keys, s0, i) == Running(s)
    ensures match Process(j, data, s, keys[i])
            case Failed => Fold(j, data, keys, s0, i + 1).Error?
            case Ok(isBreak, isChanged, v, t) =>
              && Fold(j, data, keys, s0, i + 1) == (if isBreak then Stopped(t) else Running(t))
              && Updated(j, data, keys, s0, i + 1) ==
                 if !isBreak && j.isUpdate && isChanged
                 then Updated(j, data, keys, s0, i)[j.keyPrefix + keys[i] := j.marshal(v)]
                 else Updated(j, data, keys, s0, i)
  {
  }

  /** The first loop: the callback is asked for each entry, and the changed values are collected. */
  method Collect<S, V>(j: Job<S, V>, data: map<Bytes, Bytes>, keys: seq<Bytes>, s0: S)
    returns (r: Option<S>, updatedKeyValues: seq<(Bytes, V)>)
    requires Present(j, data, keys)
    ensures var p := Fold(j, data, keys, s0, |keys|);
            if p.Error? then r == None
            else r == Some(p.state) && Apply(j, data, updatedKeyValues) == Updated(j, data, keys, s0, |keys|)
  {
    hide Fold, Updated, NewValue, Apply;
    updatedKeyValues := [];
    var s := s0;
    FoldStart(j, data, keys, s0);
    for i := 0 to |keys|
      invariant Fold(j, data, keys, s0, i) == Running(s)
      invariant Apply(j, data, updatedKeyValues) == Updated(j, data, keys, s0, i)
    {
      var k := keys[i];
      FoldStep(j, data, keys, s0, i, s);
      var parsed := ParseJoinedKeyWithCount(k, j.keyNumber);
      if parsed.None? {
        StoppedFold(j, data, keys, s0, i + 1, |keys|);
        return None, [];
      }
      var value := j.unmarshal(data[j.keyPrefix + k]);
      if value.None? {
        StoppedFold(j, data, keys, s0, i + 1, |keys|);
        return None, [];
      }
      var answer := j.op(s, parsed.value, value.value);
      if answer.Failed? {
        StoppedFold(j, data, keys, s0, i + 1, |keys|);
        return None, [];
      }
      s := answer.state;
      if answer.isBreak {
        StoppedFold(j, data, keys, s0, i + 1, |keys|);
        return Some(s), updatedKeyValues;
      }
      if j.isUpdate && answer.isChanged {
        ApplyPush(j, data, updatedKeyValues, k, answer.value);
        updatedKeyValues := updatedKeyValues + [(k, answer.value)];
      }
    }
    return Some(s), updatedKeyValues;
  }

  lemma FoldStart<S, V>(j: Job<S, V>, data: map<Bytes, Bytes>, keys: seq<Bytes>, s0: S)
    requires Present(j, data, keys)
    ensures Fold(j, data, keys, s0, 0) == Running(s0)
    ensures Apply(j, data, []) == Updated(j, data, keys, s0, 0) == data
  {
  }

  /** The scan refines the fold over the ascending snapshot of matching entries: on an error the
      store is untouched, else the updates of the fold are written. */
  method GenericIterateStoreWithUpdate<S, V>(store: Store, j: Job<S, V>, s0: S) returns (r: Option<S>)
    modifies store
    ensures var keys := Snapshot(j, old(store.data));
            var p := Fold(j, old(store.data), keys, s0, |keys|);
            if p.Error? then r == None && store.data == old(store.data)
            else r == Some(p.state) && store.data == Updated(j, old(store.data), keys, s0, |keys|)
  {
    hide Fold, Updated, Listing, Visited;
    var data := store.data;
    ByteLessIsStrict();
    var keys := SortSet(ByteLess, Visited(data, j.keyPrefix, j.iteratePrefix));
    assert keys == Snapshot(j, data);
    var updatedKeyValues: seq<(Bytes, V)>;
    r, updatedKeyValues := Collect(j, data, keys, s0);
    if r.None? {
      return;
    }
    for m := 0 to |updatedKeyValues|
      invariant store.data == Apply(j, data, updatedKeyValues[..m])
    {
      var u := updatedKeyValues[m];
      assert updatedKeyValues[..m + 1] == updatedKeyValues[..m] + [u];
      ApplyPush(j, data, updatedKeyValues[..m], u.0, u.1);
      store.data := store.data[j.keyPrefix + u.0 := j.marshal(u.1)];
    }
    assert updatedKeyValues[..|updatedKeyValues|] == updatedKeyValues;
  }
}
