/** Chain identifiers, types/chain_id.go and `ChainIDWithoutRevision` of utils/utils.go. */
module ChainId {
  import opened Common

  // -------------------------------------------------------------------- numerals

  predicate IsDigit(c: char) {
    '0' <= c <= '9'
  }

  /** `[1-9][0-9]*` */
  predicate IsNumber(s: string) {
    s != "" && s[0] != '0' && forall i :: 0 <= i < |s| ==> IsDigit(s[i])
  }

  /** `[a-z]{1,}` */
  predicate IsName(s: string) {
    s != "" && forall i :: 0 <= i < |s| ==> 'a' <= s[i] <= 'z'
  }

  /** `big.Int.SetString` in base 10, on digits. */
  function ValueOf(s: string): (n: nat)
    requires forall i :: 0 <= i < |s| ==> IsDigit(s[i])
  {
    if s == "" then 0
    else
      assert IsDigit(s[|s| - 1]);
      10 * ValueOf(s[..|s| - 1]) + (s[|s| - 1] as int - '0' as int)
  }

  function DigitOf(n: int): (c: char)
    requires 0 <= n < 10
    ensures IsDigit(c) && c as int - '0' as int == n
  {
    ('0' as int + n) as char
  }

  /** The decimal numeral of a positive number. */
  function Numeral(n: nat): (s: string)
    requires n > 0
    ensures IsNumber(s)
  {
    if n < 10 then [DigitOf(n)] else Numeral(n / 10) + [DigitOf(n % 10)]
  }

  lemma {:induction false} ValueOfNumeral(n: nat)
    requires n > 0
    ensures ValueOf(Numeral(n)) == n
  {
    if n >= 10 {
      ValueOfNumeral(n / 10);
      var s := Numeral(n);
      assert s[..|s| - 1] == Numeral(n / 10);
    } else {
      assert Numeral(n)[..0] == "";
    }
  }

  lemma {:induction false} NumeralOfValue(s: string)
    requires IsNumber(s)
    ensures ValueOf(s) > 0 && Numeral(ValueOf(s)) == s
  {
    var init, last := s[..|s| - 1], s[|s| - 1];
    assert DigitOf(last as int - '0' as int) == last;
    if init == "" {
      assert s == [last];
    } else {
      NumeralOfValue(init);
      var n := ValueOf(s);
      assert n / 10 == ValueOf(init) && n % 10 == last as int - '0' as int;
      assert s == init + [last];
    }
  }

  // ------------------------------------------------------------------ the pattern

  function Spell(name: string, number: string, epoch: string): (s: string) {
    name + "_" + number + "-" + epoch
  }

  /** The three groups of the pattern. */
  predicate Groups(name: string, number: string, epoch: string) {
    IsName(name) && IsNumber(number) && IsNumber(epoch)
  }

  /** The first place of `c`, or the length. */
  function Find(s: string, c: char): (i: nat)
    ensures i <= |s| && (i < |s| ==> s[i] == c)
    ensures forall k :: 0 <= k < i ==> s[k] != c
  {
    if s == "" || s[0] == c then 0 else 1 + Find(s[1..], c)
  }

  lemma FindIs(s: string, c: char, i: nat)
    requires i < |s| && s[i] == c && forall k :: 0 <= k < i ==> s[k] != c
    ensures Find(s, c) == i
  {
  }

  lemma SpelledParts(s: string, i: nat, j: nat)
    requires i + 1 + j < |s| && s[i] == '_' && s[i + 1 + j] == '-'
    ensures s == Spell(s[..i], s[i + 1..][..j], s[i + 1..][j + 1..])
  {
    var rest := s[i + 1..];
    assert rest == rest[..j] + "-" + rest[j + 1..];
    assert s == s[..i] + "_" + rest;
  }

  /** `FindStringSubmatch`: the parts before and after the separators, if they fit. */
  function Submatches(s: string): (m: Option<(string, string, string)>)
    ensures m.Some? ==> Groups(m.value.0, m.value.1, m.value.2) && s == Spell(m.value.0, m.value.1, m.value.2)
  {
    var i := Find(s, '_');
    if i == |s| then None
    else
      var rest := s[i + 1..];
      var j := Find(rest, '-');
      if j == |rest| then None
      else
        var name, number, epoch := s[..i], rest[..j], rest[j + 1..];
        SpelledParts(s, i, j);
        if Groups(name, number, epoch) then Some((name, number, epoch)) else None
  }

  /** The groups of a string that fits the pattern are unique, and found. */
  lemma SubmatchesOfSpelled(name: string, number: string, epoch: string)
    requires Groups(name, number, epoch)
    ensures Submatches(Spell(name, number, epoch)) == Some((name, number, epoch))
  {
    hide Find, Numeral, ValueOf;
    var rest := number + "-" + epoch;
    assert Spell(name, number, epoch) == name + "_" + rest;
    FindBetween(name, '_', rest);
    FindBetween(number, '-', epoch);
  }

  lemma FindBetween(a: string, c: char, b: string)
    requires forall k :: 0 <= k < |a| ==> a[k] != c
    ensures var s := a + [c] + b;
            Find(s, c) == |a| && s[..|a|] == a && s[|a| + 1..] == b
  {
    FindIs(a + [c] + b, c, |a|);
  }

  predicate IsValidChainID(chainID: string) {
    |chainID| <= 48 && Submatches(chainID).Some?
  }

  // ---------------------------------------------------------------------- parsing

  /** `unicode.IsSpace`. */
  predicate IsSpace(c: char) {
    || c in "\t\n\r \U{000B}\U{000C}\U{0085}\U{00A0}\U{1680}\U{2028}\U{2029}\U{202F}\U{205F}\U{3000}"
    || '\U{2000}' <= c <= '\U{200A}'
  }

  function TrimLeft(s: string): (r: string) {
    if s != "" && IsSpace(s[0]) then TrimLeft(s[1..]) else s
  }

  function TrimRight(s: string): (r: string) {
    if s != "" && IsSpace(s[|s| - 1]) then TrimRight(s[..|s| - 1]) else s
  }

  function TrimSpace(s: string): (r: string) {
    TrimRight(TrimLeft(s))
  }

  /** The characters with the Unicode property White_Space. */
  predicate WhiteSpace(c: char) {
    var n := c as int;
    || 9 <= n <= 13 || n == 32 || n == 133 || n == 160 || n == 5760 || 8192 <= n <= 8202
    || n == 8232 || n == 8233 || n == 8239 || n == 8287 || n == 12288
  }

  lemma SpaceIsWhiteSpace(c: char)
    ensures IsSpace(c) <==> WhiteSpace(c)
  {
  }

  predicate AllWhite(s: string) {
    forall i :: 0 <= i < |s| ==> WhiteSpace(s[i])
  }

  /** The string neither starts nor ends with white space. */
  predicate Trimmed(s: string) {
    s != "" ==> !WhiteSpace(s[0]) && !WhiteSpace(s[|s| - 1])
  }

  lemma {:induction false} TrimLeftOf(l: string, s: string)
    requires AllWhite(l) && (s != "" ==> !WhiteSpace(s[0]))
    ensures TrimLeft(l + s) == s
  {
    hide IsSpace, WhiteSpace;
    if l == "" {
      assert l + s == s;
      if s != "" {
        SpaceIsWhiteSpace(s[0]);
      }
    } else {
      SpaceIsWhiteSpace(l[0]);
      assert (l + s)[0] == l[0] && (l + s)[1..] == l[1..] + s;
      TrimLeftOf(l[1..], s);
    }
  }

  lemma {:induction false} TrimRightOf(s: string, r: string)
    requires AllWhite(r) && (s != "" ==> !WhiteSpace(s[|s| - 1]))
    ensures TrimRight(s + r) == s
  {
    hide IsSpace, WhiteSpace;
    if r == "" {
      assert s + r == s;
      if s != "" {
        SpaceIsWhiteSpace(s[|s| - 1]);
      }
    } else {
      var n := |r| - 1;
      SpaceIsWhiteSpace(r[n]);
      assert (s + r)[|s + r| - 1] == r[n] && (s + r)[..|s + r| - 1] == s + r[..n];
      TrimRightOf(s, r[..n]);
    }
  }

  /** White space around a string that has none at its ends is trimmed, and nothing else. */
  lemma TrimSpaceOf(l: string, s: string, r: string)
    requires AllWhite(l) && AllWhite(r) && Trimmed(s)
    ensures TrimSpace(l + s + r) == s
  {
    hide TrimLeft, TrimRight, WhiteSpace;
    if s == "" {
      assert AllWhite(l + r) && l + s + r == (l + r) + "";
      TrimLeftOf(l + r, "");
      TrimRightOf("", "");
      assert "" + "" == "";
    } else {
      assert l + s + r == l + (s + r) && (s + r)[0] == s[0];
      TrimLeftOf(l, s + r);
      TrimRightOf(s, r);
    }
  }

  /** Every string is of that form. */
  lemma TrimSpaceSplits(s: string) returns (l: string, r: string)
    ensures s == l + TrimSpace(s) + r && AllWhite(l) && AllWhite(r) && Trimmed(TrimSpace(s))
  {
    hide WhiteSpace;
    var i := 0;
    while i < |s| && WhiteSpace(s[i])
      invariant 0 <= i <= |s| && AllWhite(s[..i])
    {
      i := i + 1;
    }
    var k := |s|;
    while k > i && WhiteSpace(s[k - 1])
      invariant i <= k <= |s| && AllWhite(s[k..])
    {
      k := k - 1;
    }
    l, r := s[..i], s[k..];
    assert s == l + s[i..k] + r;
    assert i < k ==> i < |s| && !WhiteSpace(s[i]);
    TrimSpaceOf(l, s[i..k], r);
  }

  function ParseChainID(chainID: string): (n: Option<nat>) {
    var s := TrimSpace(chainID);
    if |s| > 48 then None
    else
      match Submatches(s)
      case None => None
      case Some((_, number, _)) => Some(ValueOf(number))
  }

  /** A name, an EIP-155 number and an epoch, printed. */
  function Print(name: string, number: nat, epoch: nat): (s: string)
    requires number > 0 && epoch > 0
  {
    Spell(name, Numeral(number), Numeral(epoch))
  }

  /** The parts of a printed identifier are determined by it. */
  lemma PrintIsInjective(name: string, number: nat, epoch: nat, name': string, number': nat, epoch': nat)
    requires IsName(name) && IsName(name') && number > 0 && epoch > 0 && number' > 0 && epoch' > 0
    requires Print(name, number, epoch) == Print(name', number', epoch')
    ensures name == name' && number == number' && epoch == epoch'
  {
    SubmatchesOfSpelled(name, Numeral(number), Numeral(epoch));
    SubmatchesOfSpelled(name', Numeral(number'), Numeral(epoch'));
    ValueOfNumeral(number);
    ValueOfNumeral(number');
    ValueOfNumeral(epoch);
    ValueOfNumeral(epoch');
  }

  /** Some name and epoch print with this number to the string. */
  ghost predicate PrintsTo(number: nat, s: string) {
    exists name, epoch: nat :: IsName(name) && number > 0 && epoch > 0 && s == Print(name, number, epoch)
  }

  /** Parsing gives a number exactly if the trimmed string is an identifier of at most 48
      characters printed from that number; and it succeeds exactly on valid identifiers. */
  lemma ParseIsInverseOfPrint(chainID: string, number: nat)
    ensures ParseChainID(chainID) == Some(number) <==> PrintsTo(number, TrimSpace(chainID)) && |TrimSpace(chainID)| <= 48
    ensures ParseChainID(chainID).Some? <==> IsValidChainID(TrimSpace(chainID))
  {
    var s := TrimSpace(chainID);
    if ParseChainID(chainID) == Some(number) {
      var (name, n, e) := Submatches(s).value;
      NumeralOfValue(n);
      NumeralOfValue(e);
      assert s == Print(name, number, ValueOf(e));
    }
    if PrintsTo(number, s) {
      var name, epoch: nat :| IsName(name) && number > 0 && epoch > 0 && s == Print(name, number, epoch);
      SubmatchesOfSpelled(name, Numeral(number), Numeral(epoch));
      ValueOfNumeral(number);
    }
  }

  lemma PrintedIsTrimmed(name: string, number: nat, epoch: nat)
    requires IsName(name) && number > 0 && epoch > 0
    ensures Trimmed(Print(name, number, epoch))
  {
    var s, digits := Print(name, number, epoch), Numeral(epoch);
    assert s[0] == name[0] && s[|s| - 1] == digits[|digits| - 1];
    assert 'a' <= s[0] <= 'z' && IsDigit(s[|s| - 1]);
  }

  /** A printed identifier parses to its number with any white space around it. */
  lemma PaddedParses(l: string, name: string, number: nat, epoch: nat, r: string)
    requires AllWhite(l) && AllWhite(r) && IsName(name) && number > 0 && epoch > 0
    ensures ParseChainID(l + Print(name, number, epoch) + r)
         == if |Print(name, number, epoch)| <= 48 then Some(number) else None
  {
    var s := Print(name, number, epoch);
    hide TrimSpace, Trimmed, AllWhite;
    PrintedIsTrimmed(name, number, epoch);
    TrimSpaceOf(l, s, r);
    SubmatchesOfSpelled(name, Numeral(number), Numeral(epoch));
    ValueOfNumeral(number);
  }

  /** The identifier by its characters: letters up to `i`, an underscore, a number up to `j`, a dash,
      a number. */
  predicate HasParts(s: string, i: nat, j: nat) {
    && 0 < i && i + 1 < j && j + 1 < |s| && s[i] == '_' && s[j] == '-' && s[i + 1] != '0' && s[j + 1] != '0'
    && (forall k :: 0 <= k < i ==> 'a' <= s[k] <= 'z')
    && (forall k :: i < k < |s| && k != j ==> '0' <= s[k] <= '9')
  }

  /** The valid identifiers, by their characters. */
  lemma ValidByCharacters(s: string)
    ensures IsValidChainID(s) <==> |s| <= 48 && exists i: nat, j: nat :: HasParts(s, i, j)
  {
    hide HasParts, Submatches, Groups, Spell;
    if Submatches(s).Some? {
      var (name, number, epoch) := Submatches(s).value;
      SpelledHasParts(name, number, epoch);
    }
    if i: nat, j: nat :| HasParts(s, i, j) {
      PartsAreSpelled(s, i, j);
    }
  }

  lemma PartsAreSpelled(s: string, i: nat, j: nat)
    requires HasParts(s, i, j)
    ensures Submatches(s).Some?
  {
    hide Submatches, IsNumber, IsName, Spell;
    var name, number, epoch := s[..i], s[i + 1..j], s[j + 1..];
    PartsAreGroups(s, i, j);
    SpelledAgain(s, i, j);
    SubmatchesOfSpelled(name, number, epoch);
  }

  lemma PartsAreGroups(s: string, i: nat, j: nat)
    requires HasParts(s, i, j)
    ensures Groups(s[..i], s[i + 1..j], s[j + 1..])
  {
    var number, epoch := s[i + 1..j], s[j + 1..];
    forall k | 0 <= k < |number|
      ensures IsDigit(number[k])
    {
      assert number[k] == s[i + 1 + k];
    }
    forall k | 0 <= k < |epoch|
      ensures IsDigit(epoch[k])
    {
      assert epoch[k] == s[j + 1 + k];
    }
  }

  lemma SpelledAgain(s: string, i: nat, j: nat)
    requires i < j < |s| && s[i] == '_' && s[j] == '-'
    ensures s == Spell(s[..i], s[i + 1..j], s[j + 1..])
  {
    assert s == s[..i] + [s[i]] + s[i + 1..j] + [s[j]] + s[j + 1..];
  }

  lemma SpelledHasParts(name: string, number: string, epoch: string)
    requires Groups(name, number, epoch)
    ensures HasParts(Spell(name, number, epoch), |name|, |name| + 1 + |number|)
  {
    var s, i, j := Spell(name, number, epoch), |name|, |name| + 1 + |number|;
    forall k | i < k < |s| && k != j
      ensures '0' <= s[k] <= '9'
    {
      if k < j {
        assert s[k] == number[k - i - 1] && IsDigit(number[k - i - 1]);
      } else {
        assert s[k] == epoch[k - j - 1] && IsDigit(epoch[k - j - 1]);
      }
    }
    assert s[i + 1] == number[0] && s[j + 1] == epoch[0];
  }

  // --------------------------------------------------------------------- revision

  /** The last place of `c`, or -1. */
  function FindLast(s: string, c: char): (i: int)
    ensures -1 <= i < |s| && (i >= 0 ==> s[i] == c)
    ensures forall k :: i < k < |s| ==> s[k] != c
  {
    if s == "" then -1
    else if s[|s| - 1] == c then |s| - 1
    else FindLast(s[..|s| - 1], c)
  }

  /** `^.*[^\n-]-{1}[1-9][0-9]*$` of ibc-go: the last dash is followed by a number and preceded by
      something on the same line that is not a dash. */
  predicate IsRevisionFormat(s: string) {
    var i := FindLast(s, '-');
    i >= 1 && IsNumber(s[i + 1..]) && s[i - 1] != '-' && '\n' !in s[..i]
  }

  function ChainIDWithoutRevision(chainID: string): (s: string) {
    if !IsRevisionFormat(chainID) then chainID
    else
      var i := FindLast(chainID, '-');
      if i == -1 then chainID else chainID[..i]
  }

  lemma FindLastIs(s: string, c: char, i: nat)
    requires i < |s| && s[i] == c && forall k :: i < k < |s| ==> s[k] != c
    ensures FindLast(s, c) == i
  {
  }

  /** Something stands before the dash of a revision, on one line and not ending with a dash. */
  predicate TakesRevision(base: string) {
    base != "" && base[|base| - 1] != '-' && '\n' !in base
  }

  /** A revision number and its dash are dropped exactly if they may stand there; nothing else is. */
  lemma RevisionIsDropped(base: string, revision: nat, chainID: string)
    ensures revision > 0 ==>
              var s := base + "-" + Numeral(revision);
              ChainIDWithoutRevision(s) == if TakesRevision(base) then base else s
    ensures ChainIDWithoutRevision(chainID) == chainID || HasRevision(chainID)
  {
    hide FindLast, Numeral, IsRevisionFormat;
    if revision > 0 {
      DropDashed(base, Numeral(revision));
    }
    if IsRevisionFormat(chainID) {
      FormatHasRevision(chainID);
    }
  }

  ghost predicate HasRevision(s: string) {
    exists base, revision: nat :: revision > 0 && s == base + "-" + Numeral(revision)
  }

  lemma FormatHasRevision(s: string)
    requires IsRevisionFormat(s)
    ensures HasRevision(s)
  {
    var i := FindLast(s, '-');
    NumeralOfValue(s[i + 1..]);
    assert s == s[..i] + "-" + s[i + 1..];
  }

  /** A chain identifier without its revision is its name and number, which has no revision. */
  lemma EpochIsDropped(name: string, number: nat, epoch: nat)
    requires IsName(name) && number > 0 && epoch > 0
    ensures ChainIDWithoutRevision(Print(name, number, epoch)) == name + "_" + Numeral(number)
    ensures ChainIDWithoutRevision(name + "_" + Numeral(number)) == name + "_" + Numeral(number)
  {
    hide IsName, IsNumber, FindLast, IsRevisionFormat;
    var base, digits := name + "_" + Numeral(number), Numeral(epoch);
    assert Print(name, number, epoch) == base + "-" + digits;
    NoDashInBase(name, number);
    DropDashed(base, digits);
    NoRevision(base);
  }

  predicate OneLineNoDash(s: string) {
    forall k :: 0 <= k < |s| ==> s[k] != '-' && s[k] != '\n'
  }

  lemma NoDashInBase(name: string, number: nat)
    requires IsName(name) && number > 0
    ensures OneLineNoDash(name + "_" + Numeral(number))
  {
    assert forall k :: 0 <= k < |Numeral(number)| ==> IsDigit(Numeral(number)[k]);
  }

  lemma DropDashed(base: string, digits: string)
    requires IsNumber(digits)
    ensures var s := base + "-" + digits;
            ChainIDWithoutRevision(s) == if TakesRevision(base) then base else s
  {
    var s := base + "-" + digits;
    assert forall k :: 0 <= k < |digits| ==> IsDigit(digits[k]) && digits[k] != '-';
    FindLastIs(s, '-', |base|);
    assert s[|base| + 1..] == digits && s[..|base|] == base;
  }

  lemma NoRevision(base: string)
    requires OneLineNoDash(base)
    ensures ChainIDWithoutRevision(base) == base
  {
  }
}
