/** The consensus key of types/keys/consensus.go, held in several formats that are filled on
    first use. */
module ConsensusKey {
  import opened Common
  import opened TextCodec

  /** A public key of the Tendermint, proto or SDK kind. The three differ in Go only by type. */
  datatype PubKey = Ed25519(bytes: Bytes) | Secp256k1(bytes: Bytes) | Unsupported

  datatype JsonPubKey = JsonPubKey(keyType: string, key: string)

  /** What is used of other libraries: the JSON codec and the address hash. */
  datatype Libraries = Libraries(
    unmarshal: string -> Option<JsonPubKey>,
    marshal: JsonPubKey -> string,
    addressOf: Bytes -> Bytes)

  /** The JSON codec reads back what it writes, and never writes the empty string. */
  ghost predicate Lawful(l: Libraries) {
    forall j :: l.unmarshal(l.marshal(j)) == Some(j) && l.marshal(j) != ""
  }

  const SupportedKeyType := "/cosmos.crypto.ed25519.PubKey"

  // ----------------------------------------------------------------- conversions

  function TmKeyFromBase64Key(pubKey: string): (k: Option<Bytes>) {
    Decode64(pubKey)
  }

  function TmKeyFromJSON(l: Libraries, s: string): (k: Option<Bytes>) {
    match l.unmarshal(s)
    case None => None
    case Some(j) => if j.keyType != SupportedKeyType then None else TmKeyFromBase64Key(j.key)
  }

  function TmKeyFromHex(s: string): (k: Option<Bytes>)
    ensures k.Some? ==> |k.value| == 32
  {
    if |s| != 66 then None else HexDecode(s)
  }

  function TmProtoKeyToJSON(l: Libraries, k: Bytes): (s: string) {
    l.marshal(JsonPubKey(SupportedKeyType, Encode64(k)))
  }

  /** The JSON form of a key names the only type that is read back, and has the key in base 64. */
  lemma JsonForm(l: Libraries, k: Bytes, j: JsonPubKey)
    requires Lawful(l)
    ensures l.unmarshal(TmProtoKeyToJSON(l, k)) == Some(JsonPubKey("/cosmos.crypto.ed25519.PubKey", Encode64(k)))
    ensures TmKeyFromJSON(l, l.marshal(j)) == if j.keyType == "/cosmos.crypto.ed25519.PubKey" then Decode64(j.key) else None
  {
  }

  /** Writing a key as JSON and reading it back gives the key. */
  lemma JsonRoundTrip(l: Libraries, k: Bytes)
    requires Lawful(l)
    ensures TmKeyFromJSON(l, TmProtoKeyToJSON(l, k)) == Some(k)
  {
    Base64RoundTrip(k);
  }

  /** Reading back the hex form succeeds exactly for keys of 32 bytes. */
  lemma HexKeyRoundTrip(k: Bytes)
    ensures TmKeyFromHex(HexEncode(k)) == if |k| == 32 then Some(k) else None
  {
    HexRoundTrip(k);
  }

  // ----------------------------------------------------------------------- state

  /** `wrappedConsKeyImpl`: a string that is empty and an option that is `None` are not filled. */
  datatype Formats = Formats(
    jsonString: string,
    bytes32String: string,
    tmProtoKey: Bytes,
    tmKey: Option<Bytes>,
    sdkKey: Option<Bytes>,
    consAddress: Option<Bytes>)

  /** Every format that is filled denotes the same key. */
  ghost predicate Consistent(l: Libraries, w: Formats) {
    && (w.jsonString != "" ==> TmKeyFromJSON(l, w.jsonString) == Some(w.tmProtoKey))
    && (w.bytes32String != "" ==> HexDecode(w.bytes32String) == Some(w.tmProtoKey))
    && (w.tmKey.Some? ==> w.tmKey.value == w.tmProtoKey)
    && (w.sdkKey.Some? ==> w.sdkKey.value == w.tmProtoKey)
    && (w.consAddress.Some? ==> |w.tmProtoKey| == 32 && w.consAddress.value == l.addressOf(w.tmProtoKey))
  }

  function FromJSON(l: Libraries, s: string): (w: Option<Formats>)
    ensures w.Some? <==> TmKeyFromJSON(l, s).Some?
    ensures w.Some? ==> Consistent(l, w.value) && TmKeyFromJSON(l, s) == Some(w.value.tmProtoKey)
  {
    match TmKeyFromJSON(l, s)
    case None => None
    case Some(k) => Some(Formats(s, "", k, None, None, None))
  }

  function FromHex(l: Libraries, s: string): (w: Option<Formats>)
    ensures w.Some? <==> |s| == 66 && HexDecode(s).Some?
    ensures w.Some? ==> Consistent(l, w.value) && HexDecode(s) == Some(w.value.tmProtoKey)
  {
    match TmKeyFromHex(s)
    case None => None
    case Some(k) => Some(Formats("", s, k, None, None, None))
  }

  function FromTmProtoKey(l: Libraries, k: Option<PubKey>): (w: Option<Formats>)
    ensures w.Some? <==> k.Some? && k.value.Ed25519?
    ensures w.Some? ==> Consistent(l, w.value) && k == Some(Ed25519(w.value.tmProtoKey))
  {
    match k
    case Some(Ed25519(b)) => Some(Formats("", "", b, None, None, None))
    case _ => None
  }

  function FromTmKey(l: Libraries, k: PubKey): (w: Option<Formats>)
    ensures w.Some? <==> k.Ed25519?
    ensures w.Some? ==> Consistent(l, w.value) && k == Ed25519(w.value.tmProtoKey)
  {
    match k
    case Ed25519(b) => Some(Formats("", "", b, Some(b), None, None))
    case _ => None
  }

  function FromSdkKey(l: Libraries, k: PubKey): (w: Option<Formats>)
    ensures w.Some? <==> k.Ed25519?
    ensures w.Some? ==> Consistent(l, w.value) && k == Ed25519(w.value.tmProtoKey)
  {
    match k
    case Ed25519(b) => Some(Formats("", "", b, None, Some(b), None))
    case _ => None
  }

  // --------------------------------------------------------------------- getters

  datatype Getter = ToJSON | ToHex | ToTmProtoKey | ToSdkKey | ToConsAddr | ToTmKey

  /** `Nil` is the nil that `ToTmKey` returns for a key of the wrong size, `Panic` what the
      address of such a key gives. */
  datatype Reply = Text(text: string) | Raw(bytes: Bytes) | Nil | Panic

  function WithSdkKey(w: Formats): (r: Formats) {
    if w.sdkKey.None? then w.(sdkKey := Some(w.tmProtoKey)) else w
  }

  /** One call of a getter: the formats afterwards, and what it returns. */
  function Get(l: Libraries, w: Formats, g: Getter): (r: (Formats, Reply)) {
    match g
    case ToJSON =>
      var s := if w.jsonString == "" then TmProtoKeyToJSON(l, w.tmProtoKey) else w.jsonString;
      (w.(jsonString := s), Text(s))
    case ToHex =>
      var s := if w.bytes32String == "" then HexEncode(w.tmProtoKey) else w.bytes32String;
      (w.(bytes32String := s), Text(s))
    case ToTmProtoKey => (w, Raw(w.tmProtoKey))
    case ToSdkKey => (WithSdkKey(w), Raw(WithSdkKey(w).sdkKey.value))
    case ToConsAddr =>
      if w.consAddress.Some? then (w, Raw(w.consAddress.value))
      else
        var v := WithSdkKey(w);
        if |v.sdkKey.value| != 32 then (v, Panic)
        else
          var a := l.addressOf(v.sdkKey.value);
          (v.(consAddress := Some(a)), Raw(a))
    case ToTmKey =>
      var v := WithSdkKey(w);
      (v, if |v.sdkKey.value| == 32 then Raw(v.sdkKey.value) else Nil)
  }

  function AfterCalls(l: Libraries, w: Formats, gs: seq<Getter>): (r: Formats) {
    if gs == [] then w else Get(l, AfterCalls(l, w, gs[..|gs| - 1]), gs[|gs| - 1]).0
  }

  lemma GetKeepsConsistent(l: Libraries, w: Formats, g: Getter)
    requires Lawful(l) && Consistent(l, w)
    ensures Consistent(l, Get(l, w, g).0) && Get(l, w, g).0.tmProtoKey == w.tmProtoKey
  {
    JsonRoundTrip(l, w.tmProtoKey);
    HexRoundTrip(w.tmProtoKey);
  }

  /** A getter's reply is the same after any other getter, and after itself. */
  lemma GetIsStable(l: Libraries, w: Formats, g: Getter, h: Getter)
    requires Lawful(l) && Consistent(l, w)
    ensures Get(l, Get(l, w, h).0, g).1 == Get(l, w, g).1
  {
  }

  /** After any sequence of calls the formats still denote one key, and every getter replies as
      it would have at first. */
  lemma {:induction false} CallsAreInvisible(l: Libraries, w: Formats, gs: seq<Getter>, g: Getter)
    requires Lawful(l) && Consistent(l, w)
    ensures Consistent(l, AfterCalls(l, w, gs)) && AfterCalls(l, w, gs).tmProtoKey == w.tmProtoKey
    ensures Get(l, AfterCalls(l, w, gs), g).1 == Get(l, w, g).1
  {
    if gs != [] {
      hide Get, Consistent, Lawful;
      var init, last := gs[..|gs| - 1], gs[|gs| - 1];
      CallsAreInvisible(l, w, init, g);
      GetKeepsConsistent(l, AfterCalls(l, w, init), last);
      GetIsStable(l, AfterCalls(l, w, init), g, last);
    }
  }

  /** After any calls, `ToTmKey` replies nil and `ToConsAddr` panics exactly for a key that does not
      have 32 bytes, and any other reply is the key or its address. */
  lemma WrongSizeReplies(l: Libraries, w: Formats, gs: seq<Getter>)
    requires Lawful(l) && Consistent(l, w)
    ensures Get(l, AfterCalls(l, w, gs), ToTmKey).1 == if |w.tmProtoKey| == 32 then Raw(w.tmProtoKey) else Nil
    ensures Get(l, AfterCalls(l, w, gs), ToConsAddr).1
         == if |w.tmProtoKey| == 32 then Raw(l.addressOf(w.tmProtoKey)) else Panic
  {
    CallsAreInvisible(l, w, gs, ToTmKey);
    CallsAreInvisible(l, w, gs, ToConsAddr);
  }

  /** Keys of every size are accepted from JSON, so those replies occur. */
  lemma WrongSizeIsAccepted(l: Libraries, k: Bytes, gs: seq<Getter>)
    requires Lawful(l)
    ensures var w := FromJSON(l, TmProtoKeyToJSON(l, k));
            && w.Some? && w.value.tmProtoKey == k
            && (Get(l, AfterCalls(l, w.value, gs), ToTmKey).1 == Nil <==> |k| != 32)
            && (Get(l, AfterCalls(l, w.value, gs), ToConsAddr).1 == Panic <==> |k| != 32)
  {
    hide Consistent, Get, AfterCalls;
    JsonRoundTrip(l, k);
    WrongSizeReplies(l, FromJSON(l, TmProtoKeyToJSON(l, k)).value, gs);
  }

  // ------------------------------------------------------------------ rebuilding

  /** `EqualsWrapped` on keys that are not nil. */
  predicate EqualsWrapped(v: Formats, w: Formats) {
    v.tmProtoKey == w.tmProtoKey
  }

  /** A key rebuilt from `ToJSON` after any calls equals the original; one rebuilt from `ToHex`
      does too, and can be rebuilt exactly if the key has 32 bytes. */
  lemma RebuiltKeyIsEqual(l: Libraries, w: Formats, gs: seq<Getter>)
    requires Lawful(l) && Consistent(l, w)
    ensures var v := AfterCalls(l, w, gs);
            var json, hex := Get(l, v, ToJSON).1.text, Get(l, v, ToHex).1.text;
            && FromJSON(l, json).Some? && EqualsWrapped(FromJSON(l, json).value, w)
            && (FromHex(l, hex).Some? <==> |w.tmProtoKey| == 32)
            && (FromHex(l, hex).Some? ==> EqualsWrapped(FromHex(l, hex).value, w))
  {
    CallsAreInvisible(l, w, gs, ToJSON);
    var v := AfterCalls(l, w, gs);
    JsonRoundTrip(l, v.tmProtoKey);
    HexRoundTrip(v.tmProtoKey);
  }

  // ----------------------------------------------------------------------- class

  /** `wrappedConsKeyImpl` with its getters. */
  class WrappedConsKey {
    const lib: Libraries
    var jsonString: string
    var bytes32String: string
    const tmProtoKey: Bytes
    const tmKey: Option<Bytes>
    var sdkKey: Option<Bytes>
    var consAddress: Option<Bytes>

    ghost function State(): (w: Formats)
      reads this
    {
      Formats(jsonString, bytes32String, tmProtoKey, tmKey, sdkKey, consAddress)
    }

    constructor (l: Libraries, w: Formats)
      ensures State() == w && lib == l
    {
      lib := l;
      jsonString, bytes32String, tmProtoKey := w.jsonString, w.bytes32String, w.tmProtoKey;
      tmKey, sdkKey, consAddress := w.tmKey, w.sdkKey, w.consAddress;
    }

    method ToJSON() returns (s: string)
      modifies this
      ensures (State(), Text(s)) == Get(lib, old(State()), Getter.ToJSON)
    {
      if jsonString == "" {
        jsonString := TmProtoKeyToJSON(lib, tmProtoKey);
      }
      return jsonString;
    }

    method ToHex() returns (s: string)
      modifies this
      ensures (State(), Text(s)) == Get(lib, old(State()), Getter.ToHex)
    {
      if bytes32String == "" {
        bytes32String := HexEncode(tmProtoKey);
      }
      return bytes32String;
    }

    method ToSdkKey() returns (k: Bytes)
      modifies this
      ensures (State(), Raw(k)) == Get(lib, old(State()), Getter.ToSdkKey)
      ensures Consistent(lib, old(State())) ==> k == tmProtoKey
    {
      if sdkKey.None? {
        sdkKey := Some(tmProtoKey);
      }
      return sdkKey.value;
    }

    /** `None` stands for the panic of the address function. */
    method ToConsAddr() returns (a: Option<Bytes>)
      modifies this
      ensures (State(), if a.Some? then Raw(a.value) else Panic) == Get(lib, old(State()), Getter.ToConsAddr)
      ensures Consistent(lib, old(State())) ==>
                a == if |tmProtoKey| == 32 then Some(lib.addressOf(tmProtoKey)) else None
    {
      if consAddress.None? {
        if sdkKey.None? {
          var _ := ToSdkKey();
        }
        if |sdkKey.value| != 32 {
          return None;
        }
        consAddress := Some(lib.addressOf(sdkKey.value));
      }
      return consAddress;
    }

    method ToTmKey() returns (k: Option<Bytes>)
      modifies this
      ensures (State(), if k.Some? then Raw(k.value) else Nil) == Get(lib, old(State()), Getter.ToTmKey)
      ensures Consistent(lib, old(State())) ==> k == if |tmProtoKey| == 32 then Some(tmProtoKey) else None
    {
      var sdk := ToSdkKey();
      return if |sdk| == 32 then Some(sdk) else None;
    }
  }
}
