/** Base 16 (section 8 of RFC 4648) as `hexutil` uses it, and base 64 (section 4 of RFC 4648) as
    Go's `base64.StdEncoding` decodes it. */
module TextCodec {
  import opened Common

  // ------------------------------------------------------------------------- hex

  function HexDigit(n: int): (c: char)
    requires 0 <= n < 16
  {
    if n < 10 then ('0' as int + n) as char else ('a' as int + n - 10) as char
  }

  function HexValue(c: char): (n: Option<int>)
    ensures n.Some? ==> 0 <= n.value < 16
  {
    if '0' <= c <= '9' then Some(c as int - '0' as int)
    else if 'a' <= c <= 'f' then Some(c as int - 'a' as int + 10)
    else if 'A' <= c <= 'F' then Some(c as int - 'A' as int + 10)
    else None
  }

  lemma HexDigitValue(n: int)
    requires 0 <= n < 16
    ensures HexValue(HexDigit(n)) == Some(n)
  {
  }

  function HexOf(b: Bytes): (s: string)
    ensures |s| == 2 * |b|
  {
    if b == [] then "" else [HexDigit(b[0] / 16), HexDigit(b[0] % 16)] + HexOf(b[1..])
  }

  function BytesOf(s: string): (b: Option<Bytes>)
    ensures b.Some? ==> |s| == 2 * |b.value|
  {
    if s == "" then Some([])
    else if |s| == 1 then None
    else
      var hi, lo, rest := HexValue(s[0]), HexValue(s[1]), BytesOf(s[2..]);
      if hi.Some? && lo.Some? && rest.Some? then Some([16 * hi.value + lo.value] + rest.value) else None
  }

  lemma {:induction false} BytesOfHex(b: Bytes)
    ensures BytesOf(HexOf(b)) == Some(b)
  {
    if b != [] {
      BytesOfHex(b[1..]);
      HexDigitValue(b[0] / 16);
      HexDigitValue(b[0] % 16);
      assert HexOf(b)[2..] == HexOf(b[1..]);
      assert [b[0]] + b[1..] == b;
    }
  }

  function HexEncode(b: Bytes): (s: string)
    ensures |s| == 2 + 2 * |b|
  {
    "0x" + HexOf(b)
  }

  /** `hexutil.Decode`: the prefix is required, in either case. */
  function HexDecode(s: string): (b: Option<Bytes>)
    ensures b.Some? ==> |s| == 2 + 2 * |b.value|
  {
    if |s| < 2 || s[0] != '0' || (s[1] != 'x' && s[1] != 'X') then None else BytesOf(s[2..])
  }

  const HexAlphabet := "0123456789abcdef"

  /** The digits of each byte, the higher one first, in the alphabet of base 16. */
  lemma {:induction false} HexDigitsOfBytes(b: Bytes, i: nat)
    requires i < |b|
    ensures HexEncode(b)[..2] == "0x"
    ensures HexEncode(b)[2 + 2 * i] == HexAlphabet[b[i] / 16] && HexEncode(b)[3 + 2 * i] == HexAlphabet[b[i] % 16]
    decreases i
  {
    HexLetter(b[i] / 16);
    HexLetter(b[i] % 16);
    hide HexDigit;
    if i > 0 {
      HexDigitsOfBytes(b[1..], i - 1);
      assert HexOf(b)[2 * i] == HexOf(b[1..])[2 * (i - 1)] && HexOf(b)[2 * i + 1] == HexOf(b[1..])[2 * (i - 1) + 1];
    }
  }

  lemma HexLetter(n: nat)
    requires n < 16
    ensures HexDigit(n) == HexAlphabet[n]
  {
  }

  /** A character is read as a digit exactly if it is a letter of the alphabet, in either case. */
  lemma HexLettersRead(c: char, n: nat)
    ensures HexValue(c) == Some(n) <==> n < 16 && (HexAlphabet[n] == c || "0123456789ABCDEF"[n] == c)
  {
  }

  lemma HexRoundTrip(b: Bytes)
    ensures HexDecode(HexEncode(b)) == Some(b)
  {
    BytesOfHex(b);
    assert HexEncode(b)[2..] == HexOf(b);
  }

  // ---------------------------------------------------------------------- base 64

  function Digit64(n: int): (c: char)
    requires 0 <= n < 64
  {
    if n < 26 then ('A' as int + n) as char
    else if n < 52 then ('a' as int + n - 26) as char
    else if n < 62 then ('0' as int + n - 52) as char
    else if n == 62 then '+' else '/'
  }

  function Value64(c: char): (n: Option<int>)
    ensures n.Some? ==> 0 <= n.value < 64
  {
    if 'A' <= c <= 'Z' then Some(c as int - 'A' as int)
    else if 'a' <= c <= 'z' then Some(c as int - 'a' as int + 26)
    else if '0' <= c <= '9' then Some(c as int - '0' as int + 52)
    else if c == '+' then Some(62)
    else if c == '/' then Some(63)
    else None
  }

  predicate IsLineBreak(c: char) {
    c == '\r' || c == '\n'
  }

  lemma Digit64Value(n: int)
    requires 0 <= n < 64
    ensures Value64(Digit64(n)) == Some(n) && Digit64(n) != '=' && !IsLineBreak(Digit64(n))
  {
  }

  /** Four digits for three bytes; `Encode64` leaves out those that pad the last group. */
  function Digits(a: byte, b: byte, c: byte): (s: string)
    ensures |s| == 4
  {
    [Digit64(a / 4), Digit64(a % 4 * 16 + b / 16), Digit64(b % 16 * 4 + c / 64), Digit64(c % 64)]
  }

  function Encode64(b: Bytes): (s: string)
    decreases |b|
  {
    if |b| == 0 then ""
    else if |b| == 1 then Digits(b[0], 0, 0)[..2] + "=="
    else if |b| == 2 then Digits(b[0], b[1], 0)[..3] + "="
    else Digits(b[0], b[1], b[2]) + Encode64(b[3..])
  }

  const Capitals := "ABCDEFGHIJKLMNOPQRSTUVWXYZ"

  const Smalls := "abcdefghijklmnopqrstuvwxyz"

  const Numerals := "0123456789"

  const Alphabet64 := Capitals + Smalls + Numerals + "+/"

  /** The letter stands for the number in the alphabet of base 64. */
  predicate Stands(c: char, n: nat) {
    n < 64 && Alphabet64[n] == c
  }

  lemma CapitalAt(n: nat)
    requires n < 26
    ensures |Capitals| == 26 && Capitals[n] as int == 'A' as int + n
  {
  }

  lemma SmallAt(n: nat)
    requires n < 26
    ensures |Smalls| == 26 && Smalls[n] as int == 'a' as int + n
  {
  }

  /** The letter of each number, part by part of the alphabet. */
  lemma Letter64(n: nat)
    requires n < 64
    ensures Stands(Digit64(n), n)
  {
    if n < 26 {
      CapitalAt(n);
      assert Alphabet64[n] == Capitals[n];
    } else if n < 52 {
      SmallAt(n - 26);
      assert Alphabet64[n] == Smalls[n - 26];
    } else if n < 62 {
      assert Alphabet64[n] == Numerals[n - 52];
    } else {
      assert Alphabet64[n] == "+/"[n - 62];
    }
  }

  /** The four letters are the base-64 numeral of the number whose base-256 numeral are the three bytes. */
  ghost predicate SameNumber(s: string, a: byte, b: byte, c: byte) {
    |s| == 4 && exists w: nat, x: nat, y: nat, z: nat ::
      && Stands(s[0], w) && Stands(s[1], x) && Stands(s[2], y) && Stands(s[3], z)
      && 262144 * w + 4096 * x + 64 * y + z == 65536 * a + 256 * b + c
  }

  lemma DigitsAreSameNumber(a: byte, b: byte, c: byte)
    ensures SameNumber(Digits(a, b, c), a, b, c)
  {
    hide Digit64, Stands;
    Letter64(a / 4);
    Letter64(a % 4 * 16 + b / 16);
    Letter64(b % 16 * 4 + c / 64);
    Letter64(c % 64);
    var w, x, y, z := a / 4, a % 4 * 16 + b / 16, b % 16 * 4 + c / 64, c % 64;
    var s := Digits(a, b, c);
    assert Stands(s[0], w) && Stands(s[1], x) && Stands(s[2], y) && Stands(s[3], z);
    RegroupBits(a, b, c);
  }

  lemma RegroupBits(a: byte, b: byte, c: byte)
    ensures 262144 * (a / 4) + 4096 * (a % 4 * 16 + b / 16) + 64 * (b % 16 * 4 + c / 64) + c % 64
         == 65536 * a + 256 * b + c
  {
  }

  /** The byte at a place, or zero beyond the end. */
  function ByteAt(b: Bytes, i: nat): (x: byte) {
    if i < |b| then b[i] else 0
  }

  /** The letters have the number of the `i`-th three bytes. */
  ghost predicate NumberAt(s: string, b: Bytes, i: nat) {
    SameNumber(s, ByteAt(b, 3 * i), ByteAt(b, 3 * i + 1), ByteAt(b, 3 * i + 2))
  }

  /** Group `i` of the text: the letters of three bytes, where those of missing bytes are replaced by padding. */
  ghost predicate IsGroup(g: string, b: Bytes, i: nat) {
    exists s :: NumberAt(s, b, i) && g == Padded(s, |b| - 3 * i)
  }

  /** The letters that `n` bytes need, with padding for the rest. */
  function Padded(s: string, n: int): (g: string) {
    if |s| != 4 then "" else if n == 1 then s[..2] + "==" else if n == 2 then s[..3] + "=" else s
  }

  /** Base 64 group by group, by the numbers the letters stand for. */
  lemma {:induction false} EncodedGroup(b: Bytes, i: nat)
    requires 3 * i < |b|
    ensures |Encode64(b)| == 4 * ((|b| + 2) / 3)
    ensures IsGroup(Encode64(b)[4 * i..4 * i + 4], b, i)
    decreases |b|
  {
    hide Digits, SameNumber, IsGroup;
    if |b| > 3 {
      EncodedGroup(b[3..], if i == 0 then 0 else i - 1);
    }
    if i == 0 {
      FirstGroup(b);
    } else {
      assert Encode64(b)[4 * i..4 * i + 4] == Encode64(b[3..])[4 * (i - 1)..4 * (i - 1) + 4];
      LaterGroup(Encode64(b)[4 * i..4 * i + 4], b, i);
    }
  }

  lemma FirstGroup(b: Bytes)
    requires b != []
    ensures |Encode64(b)| >= 4 && IsGroup(Encode64(b)[0..4], b, 0)
  {
    hide Digits, SameNumber;
    DigitsAreSameNumber(b[0], ByteAt(b, 1), ByteAt(b, 2));
    var s := Digits(b[0], ByteAt(b, 1), ByteAt(b, 2));
    assert Encode64(b)[0..4] == Padded(s, |b|);
    assert NumberAt(s, b, 0);
  }

  lemma LaterGroup(g: string, b: Bytes, i: nat)
    requires 0 < i && 3 * i < |b| && IsGroup(g, b[3..], i - 1)
    ensures IsGroup(g, b, i)
  {
    hide SameNumber;
    var s :| NumberAt(s, b[3..], i - 1) && g == Padded(s, |b[3..]| - 3 * (i - 1));
    assert forall k: nat :: ByteAt(b[3..], k) == ByteAt(b, k + 3);
    assert NumberAt(s, b, i);
  }

  /** Line breaks may stand anywhere. */
  function WithoutLineBreaks(s: string): (r: string) {
    if s == "" then ""
    else if IsLineBreak(s[0]) then WithoutLineBreaks(s[1..])
    else [s[0]] + WithoutLineBreaks(s[1..])
  }

  /** The three bytes of four digits. */
  function Group(w: int, x: int, y: int, z: int): (b: Bytes)
    requires 0 <= w < 64 && 0 <= x < 64 && 0 <= y < 64 && 0 <= z < 64
    ensures |b| == 3
  {
    [w * 4 + x / 16, x % 16 * 16 + y / 4, y % 4 * 64 + z]
  }

  /** Padding only ends the last group; the bits it leaves unused are not checked. */
  function DecodeGroups(s: string): (b: Option<Bytes>)
    decreases |s|
  {
    if s == "" then Some([])
    else if |s| < 4 then None
    else
      var w, x := Value64(s[0]), Value64(s[1]);
      if w.None? || x.None? then None
      else if s[2..] == "==" then Some(Group(w.value, x.value, 0, 0)[..1])
      else
        var y := Value64(s[2]);
        if y.None? then None
        else if s[3..] == "=" then Some(Group(w.value, x.value, y.value, 0)[..2])
        else
          var z, rest := Value64(s[3]), DecodeGroups(s[4..]);
          if z.None? || rest.None? then None
          else Some(Group(w.value, x.value, y.value, z.value) + rest.value)
  }

  function Decode64(s: string): (b: Option<Bytes>) {
    DecodeGroups(WithoutLineBreaks(s))
  }

  lemma DigitsOfGroup(a: byte, b: byte, c: byte)
    ensures Value64(Digits(a, b, c)[0]) == Some(a / 4)
    ensures Value64(Digits(a, b, c)[1]) == Some(a % 4 * 16 + b / 16)
    ensures Value64(Digits(a, b, c)[2]) == Some(b % 16 * 4 + c / 64)
    ensures Value64(Digits(a, b, c)[3]) == Some(c % 64)
    ensures forall i :: 0 <= i < 4 ==> Digits(a, b, c)[i] != '=' && !IsLineBreak(Digits(a, b, c)[i])
  {
    hide Digit64, Value64, IsLineBreak;
    Digit64Value(a / 4);
    Digit64Value(a % 4 * 16 + b / 16);
    Digit64Value(b % 16 * 4 + c / 64);
    Digit64Value(c % 64);
  }

  lemma GroupOfDigits(a: byte, b: byte, c: byte)
    ensures Group(a / 4, a % 4 * 16 + b / 16, b % 16 * 4 + c / 64, c % 64) == [a, b, c]
  {
  }

  lemma {:induction false} DecodeGroupsOfEncode(b: Bytes)
    ensures DecodeGroups(Encode64(b)) == Some(b)
    decreases |b|
  {
    hide Digits, Group, Value64;
    var s := Encode64(b);
    if |b| == 1 {
      DigitsOfGroup(b[0], 0, 0);
      GroupOfDigits(b[0], 0, 0);
      assert s[2..] == "==";
      assert [b[0], 0, 0][..1] == b;
    } else if |b| == 2 {
      DigitsOfGroup(b[0], b[1], 0);
      GroupOfDigits(b[0], b[1], 0);
      assert s[2..][0] == s[2] && s[3..] == "=";
      assert [b[0], b[1], 0][..2] == b;
    } else if |b| > 2 {
      DigitsOfGroup(b[0], b[1], b[2]);
      GroupOfDigits(b[0], b[1], b[2]);
      DecodeGroupsOfEncode(b[3..]);
      assert s[2..][0] == s[2] && s[3..][0] == s[3];
      assert s[4..] == Encode64(b[3..]);
      assert [b[0], b[1], b[2]] + b[3..] == b;
    }
  }

  ghost predicate NoLineBreaks(s: string) {
    forall i :: 0 <= i < |s| ==> !IsLineBreak(s[i])
  }

  lemma {:induction false} NothingToStrip(s: string)
    requires NoLineBreaks(s)
    ensures WithoutLineBreaks(s) == s
  {
    if s != "" {
      NothingToStrip(s[1..]);
    }
  }

  lemma {:induction false} EncodeHasNoLineBreaks(b: Bytes)
    ensures NoLineBreaks(Encode64(b))
    decreases |b|
  {
    hide Digits;
    if |b| == 1 {
      DigitsOfGroup(b[0], 0, 0);
    } else if |b| == 2 {
      DigitsOfGroup(b[0], b[1], 0);
    } else if |b| > 2 {
      DigitsOfGroup(b[0], b[1], b[2]);
      EncodeHasNoLineBreaks(b[3..]);
    }
  }

  lemma {:induction false} WithoutLineBreaksConcat(a: string, b: string)
    ensures WithoutLineBreaks(a + b) == WithoutLineBreaks(a) + WithoutLineBreaks(b)
  {
    if a == "" {
      assert a + b == b;
    } else {
      assert (a + b)[0] == a[0] && (a + b)[1..] == a[1..] + b;
      WithoutLineBreaksConcat(a[1..], b);
    }
  }

  /** Line breaks anywhere do not matter. */
  lemma LineBreaksAreSkipped(a: string, c: char, b: string)
    requires c == '\r' || c == '\n'
    ensures Decode64(a + [c] + b) == Decode64(a + b)
  {
    WithoutLineBreaksConcat(a + [c], b);
    WithoutLineBreaksConcat(a, [c]);
    WithoutLineBreaksConcat(a, b);
    assert [c][1..] == "" && WithoutLineBreaks([c]) == "";
    assert WithoutLineBreaks(a) + "" == WithoutLineBreaks(a);
  }

  lemma Base64RoundTrip(b: Bytes)
    ensures Decode64(Encode64(b)) == Some(b)
  {
    EncodeHasNoLineBreaks(b);
    NothingToStrip(Encode64(b));
    DecodeGroupsOfEncode(b);
  }
}
