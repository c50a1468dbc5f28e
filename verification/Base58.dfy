/** Base58 text of byte strings, for alphabets of ASCII characters. */
module Base58 {
  import opened Wrappers
  import opened Division
  import opened Radix

  /** Characters are code points. */
  datatype Alphabet = Alphabet(encodeTable: seq<nat>, decodeTable: seq<int>, unicodeDecodeTable: seq<nat>)

  ghost predicate Ascii(alphabet: seq<nat>) {
    |alphabet| == 58 && AllBelow(alphabet, 128) && forall i, j :: 0 <= i < j < 58 ==> alphabet[i] != alphabet[j]
  }

  /** The tables are each other's inverse. */
  ghost predicate Tables(a: Alphabet) {
    && Ascii(a.encodeTable) && |a.decodeTable| == 256 && a.unicodeDecodeTable == []
    && (forall i :: 0 <= i < 58 ==> a.decodeTable[a.encodeTable[i]] == i)
    && forall c :: 0 <= c < 256 && a.decodeTable[c] != -1 ==>
      0 <= a.decodeTable[c] < 58 && a.encodeTable[a.decodeTable[c]] == c
  }

  /** None where the source panics. */
  method NewAlphabet(alphabet: seq<nat>) returns (ret: Option<Alphabet>)
    ensures ret.None? <==> |alphabet| != 58
    ensures ret.Some? && Ascii(alphabet) ==> Tables(ret.value) && ret.value.encodeTable == alphabet
  {
    if |alphabet| != 58 {
      return None;
    }
    var encodeTable: seq<nat>, decodeTable: seq<int>, unicode: seq<nat> := [], seq(256, i => -1), [];
    for idx := 0 to 58
      invariant encodeTable == alphabet[..idx] && |decodeTable| == 256
      invariant Ascii(alphabet) ==> unicode == [] && forall i :: 0 <= i < idx ==> decodeTable[alphabet[i]] == i
      invariant forall c :: 0 <= c < 256 && decodeTable[c] != -1 ==>
        0 <= decodeTable[c] < idx && alphabet[decodeTable[c]] == c
    {
      var ch := alphabet[idx];
      encodeTable := encodeTable + [ch];
      if ch < 256 {
        decodeTable := decodeTable[ch := idx];
      } else {
        unicode := unicode + [ch, idx];
      }
    }
    return Some(Alphabet(encodeTable, decodeTable, unicode));
  }

  /** How often c stands at the front of s. */
  function Leading(s: seq<nat>, c: nat): (z: nat)
    ensures z <= |s| && (forall i :: 0 <= i < z ==> s[i] == c) && (z < |s| ==> s[z] != c)
  {
    if s == [] || s[0] != c then 0 else 1 + Leading(s[1..], c)
  }

  function Repeat(c: nat, n: nat): (s: seq<nat>)
    ensures |s| == n && forall i :: 0 <= i < n ==> s[i] == c
  {
    seq(n, i => c)
  }

  function Letters(table: seq<nat>, digits: seq<nat>): (s: seq<nat>)
    requires AllBelow(digits, |table|)
    ensures |s| == |digits| && forall i :: 0 <= i < |s| ==> s[i] == table[digits[i]]
  {
    seq(|digits|, i requires 0 <= i < |digits| => table[digits[i]])
  }

  /** The text of a byte string: a first letter for each leading zero byte, then the digits of the number. */
  ghost function Text(table: seq<nat>, input: seq<nat>): seq<nat>
    requires |table| == 58
  {
    var z := Leading(input, 0);
    Repeat(table[0], z) + Letters(table, Digits(58, Num(256, input[z..])))
  }

  lemma Power58To11()
    ensures Pow(58, 11) == 24986644000165537792
  {
    assert Pow(58, 1) == 58 * Pow(58, 0) == 58;
    hide Pow;
    PowAdds(58, 1, 1);
    PowAdds(58, 2, 2);
    PowAdds(58, 4, 4);
    PowAdds(58, 8, 2);
    PowAdds(58, 10, 1);
  }

  lemma Power256To8()
    ensures Pow(256, 8) == 18446744073709551616
  {
    assert Pow(256, 1) == 256 * Pow(256, 0) == 256;
    hide Pow;
    PowAdds(256, 1, 1);
    PowAdds(256, 2, 2);
    PowAdds(256, 4, 4);
  }

  lemma Power58To71()
    ensures Pow(58, 71) ==
      0xf1a10f76073f997e1af0b37f5c795ecf145633452837a5de3fa17ac74b86f60a0ebe5446f358940a4ca12a800000000000000000
  {
    assert Pow(58, 1) == 58 * Pow(58, 0) == 58;
    hide Pow;
    PowAdds(58, 1, 1);
    PowAdds(58, 2, 2);
    PowAdds(58, 4, 4);
    PowAdds(58, 8, 8);
    PowAdds(58, 16, 16);
    PowAdds(58, 32, 32);
    PowAdds(58, 64, 4);
    PowAdds(58, 68, 2);
    PowAdds(58, 70, 1);
  }

  lemma Power256To52()
    ensures Pow(256, 52) ==
      0x100000000000000000000000000000000000000000000000000000000000000000000000000000000000000000000000000000000
  {
    assert Pow(256, 1) == 256 * Pow(256, 0) == 256;
    hide Pow;
    PowAdds(256, 1, 1);
    PowAdds(256, 2, 2);
    PowAdds(256, 4, 4);
    PowAdds(256, 8, 8);
    PowAdds(256, 16, 16);
    PowAdds(256, 32, 16);
    PowAdds(256, 48, 4);
  }

  /** log 256 / log 58 is less than 11/8, and that less than 138/100. */
  lemma EncodeCapacity(n: nat)
    ensures Pow(256, n) <= Pow(58, n * 138 / 100 + 1)
  {
    hide Pow;
    var c := n * 138 / 100 + 1;
    Power58To11();
    Power256To8();
    PowPower(58, c, 8, 8 * c);
    PowPower(256, n, 8, 8 * n);
    PowPower(256, 8, n, 8 * n);
    PowPower(58, 11, n, 11 * n);
    PowMonotone(58, 11 * n, 8 * c);
    RootOrder(Pow(256, n), Pow(58, c), Pow(256, 8), Pow(58, 11), n, 8);
  }

  /** log 58 / log 256 is less than 52/71, and that less than 733/1000. */
  lemma DecodeCapacity(n: nat)
    ensures Pow(58, n) <= Pow(256, n * 733 / 1000 + 1)
  {
    hide Pow;
    var c := n * 733 / 1000 + 1;
    Power58To71();
    Power256To52();
    PowPower(256, c, 71, 71 * c);
    PowPower(58, n, 71, 71 * n);
    PowPower(58, 71, n, 71 * n);
    PowPower(256, 52, n, 52 * n);
    PowMonotone(256, 52 * n, 71 * c);
    RootOrder(Pow(58, n), Pow(256, c), Pow(58, 71), Pow(256, 52), n, 71);
  }

  /** If u <= v, then what relates by powers to them is ordered as well. */
  lemma RootOrder(x: nat, y: nat, u: nat, v: nat, n: nat, p: nat)
    requires p > 0 && u <= v && Pow(x, p) == Pow(u, n) && Pow(v, n) <= Pow(y, p)
    ensures x <= y
  {
    BaseMonotone(u, v, n);
    if y < x {
      BaseStrict(y, x, p);
    }
  }

  lemma PowPower(b: nat, m: nat, n: nat, k: nat)
    requires k == m * n
    ensures Pow(b, k) == Pow(Pow(b, m), n)
  {
    PowTimes(b, m, n);
  }

  method Encode(input: seq<nat>, alphabet: Alphabet) returns (text: seq<nat>)
    requires AllBelow(input, 256) && Tables(alphabet)
    ensures text == Text(alphabet.encodeTable, input)
  {
    hide Pow, Num, Digits, Holds;
    var inputLength := |input|;
    var prefixZeroes := 0;
    while prefixZeroes < inputLength && input[prefixZeroes] == 0
      invariant prefixZeroes <= inputLength && forall i :: 0 <= i < prefixZeroes ==> input[i] == 0
    {
      prefixZeroes := prefixZeroes + 1;
    }
    LeadingIs(input, 0, prefixZeroes);
    var rest := input[prefixZeroes..];
    var capacity := |rest| * 138 / 100 + 1;
    EncodeCapacity(|rest|);
    var output := new nat[capacity](i => 0);
    var outputReverseEnd := capacity - 1;
    HoldsNothing(output[..], 58, 256, rest);
    for i := 0 to |rest|
      invariant -1 <= outputReverseEnd < capacity
      invariant Holds(output[..], outputReverseEnd, 58, Num(256, rest[..i]))
    {
      PartFits(256, rest, i, Pow(58, capacity));
      outputReverseEnd := MultiplyAdd(output, outputReverseEnd, Num(256, rest[..i]), 256, 58, rest[i]);
    }
    assert rest[..|rest|] == rest;
    HeldDigits(output[..], outputReverseEnd, 58, Num(256, rest));
    text := Repeat(alphabet.encodeTable[0], prefixZeroes)
      + Letters(alphabet.encodeTable, output[outputReverseEnd + 1..]);
  }

  lemma LeadingIs(s: seq<nat>, c: nat, z: nat)
    requires z <= |s| && (forall i :: 0 <= i < z ==> s[i] == c) && (z < |s| ==> s[z] != c)
    ensures Leading(s, c) == z
  {
    var y := Leading(s, c);
    assert !(y < z) && !(z < y);
  }

  lemma HoldsNothing(output: seq<nat>, b: nat, m: nat, s: seq<nat>)
    requires |output| > 0 && b > 1 && forall i :: 0 <= i < |output| ==> output[i] == 0
    ensures Holds(output, |output| - 1, b, Num(m, s[..0]))
  {
  }

  lemma HeldDigits(output: seq<nat>, end: int, b: nat, x: nat)
    requires Holds(output, end, b, x)
    ensures -1 <= end < |output| && b > 1 && output[end + 1..] == Digits(b, x)
  {
  }

  /** The first i + 1 digits make a number within the capacity. */
  lemma PartFits(m: nat, s: seq<nat>, i: nat, bound: nat)
    requires i < |s| && AllBelow(s, m) && Pow(m, |s|) <= bound && m > 0
    ensures Num(m, s[..i + 1]) == m * Num(m, s[..i]) + s[i] && Num(m, s[..i + 1]) < bound
  {
    assert s[..i + 1] == s[..i] + [s[i]];
    NumSnoc(m, s[..i], s[i]);
    NumBound(m, s[..i + 1]);
    PowMonotone(m, i + 1, |s|);
  }

  /** The digits that letters stand for, if all are letters of the alphabet. */
  ghost predicate Spells(table: seq<nat>, digits: seq<nat>, s: seq<nat>)
    requires |table| == 58
  {
    AllBelow(digits, 58) && s == Letters(table, digits)
  }

  ghost predicate Letter(table: seq<nat>, c: nat) {
    exists i :: 0 <= i < |table| && table[i] == c
  }

  /** None for an invalid string. */
  method Decode(input: seq<nat>, alphabet: Alphabet) returns (r: Option<seq<nat>>)
    requires Tables(alphabet)
    ensures r.Some? <==> forall i :: 0 <= i < |input| ==> Letter(alphabet.encodeTable, input[i])
    ensures r.Some? ==> AllBelow(r.value, 256) && exists digits ::
      Spells(alphabet.encodeTable, digits, input) && r.value == Decoded(digits)
  {
    hide Pow, Num, Digits, Holds, Spells, Scanned, Tables, Letter, Decoded;
    ghost var table := alphabet.encodeTable;
    var capacity := |input| * 733 / 1000 + 1;
    DecodeCapacity(|input|);
    var output := new nat[capacity](i => 0);
    var outputReverseEnd := capacity - 1;
    ghost var digits: seq<nat> := [];
    HoldsNothing(output[..], 256, 58, []);
    NothingRead(alphabet, input);
    var zero58Byte := alphabet.encodeTable[0];
    var prefixZeroes, skipZeros := 0, false;
    for k := 0 to |input|
      invariant -1 <= outputReverseEnd < capacity
      invariant Spells(table, digits, input[..k]) && Scanned(digits, prefixZeroes, skipZeros)
      invariant prefixZeroes <= |digits| == k
        && Holds(output[..], outputReverseEnd, 256, Num(58, digits[prefixZeroes..]))
    {
      var target := input[k];
      if !skipZeros && target == zero58Byte {
        SpellMore(table, digits, input, k, 0);
        AnotherZero(digits, prefixZeroes);
        prefixZeroes := prefixZeroes + 1;
        digits := digits + [0];
      } else {
        ghost var skipped := skipZeros;
        skipZeros := true;
        LookUp(alphabet, target);
        var carry := -1;
        if target < 256 {
          carry := alphabet.decodeTable[target];
        }
        if carry == -1 {
          return None;
        }
        SpellMore(table, digits, input, k, carry);
        AnotherDigit(digits, prefixZeroes, carry, skipped);
        DigitFits(table, digits, input[..k], carry, prefixZeroes, |input|, Pow(256, capacity));
        outputReverseEnd := MultiplyAdd(output, outputReverseEnd, Num(58, digits[prefixZeroes..]), 58, 256, carry);
        digits := digits + [carry];
      }
    }
    assert input[..|input|] == input;
    HeldDigits(output[..], outputReverseEnd, 256, Num(58, digits[prefixZeroes..]));
    AllLetters(table, digits, input);
    r := Some(Repeat(0, prefixZeroes) + output[outputReverseEnd + 1..]);
    DecodedIs(digits, prefixZeroes, skipZeros);
  }

  lemma NothingRead(a: Alphabet, input: seq<nat>)
    requires Tables(a)
    ensures |a.encodeTable| == 58 && Spells(a.encodeTable, [], input[..0]) && Scanned([], 0, false)
  {
  }

  lemma LookUp(a: Alphabet, c: nat)
    requires Tables(a)
    ensures |a.decodeTable| == 256 && |a.encodeTable| == 58
    ensures if c >= 256 || a.decodeTable[c] == -1 then !Letter(a.encodeTable, c)
      else 0 <= a.decodeTable[c] < 58 && a.encodeTable[a.decodeTable[c]] == c
  {
  }

  lemma DecodedIs(digits: seq<nat>, z: nat, skipped: bool)
    requires Scanned(digits, z, skipped)
    ensures z <= |digits| && Decoded(digits) == Repeat(0, z) + Digits(256, Num(58, digits[z..]))
      && AllBelow(Decoded(digits), 256)
  {
    LeadingIs(digits, 0, z);
  }

  /** The leading zeros of the digits read; skipping them is over when there is another digit. */
  ghost predicate Scanned(digits: seq<nat>, prefixZeroes: nat, skipZeros: bool) {
    && prefixZeroes <= |digits| && (forall i :: 0 <= i < prefixZeroes ==> digits[i] == 0)
    && (if skipZeros then prefixZeroes < |digits| && digits[prefixZeroes] != 0 else prefixZeroes == |digits|)
  }

  lemma SpellMore(table: seq<nat>, digits: seq<nat>, input: seq<nat>, k: nat, d: nat)
    requires |table| == 58 && k < |input| && Spells(table, digits, input[..k]) && d < 58 && table[d] == input[k]
    ensures Spells(table, digits + [d], input[..k + 1]) && |digits| == k && Letter(table, input[k])
  {
    assert input[..k + 1] == input[..k] + [input[k]];
    assert Letters(table, digits + [d]) == Letters(table, digits) + [table[d]];
  }

  lemma AnotherZero(digits: seq<nat>, z: nat)
    requires Scanned(digits, z, false)
    ensures Scanned(digits + [0], z + 1, false) && (digits + [0])[z + 1..] == digits[z..] == []
  {
  }

  lemma AnotherDigit(digits: seq<nat>, z: nat, d: nat, skipped: bool)
    requires Scanned(digits, z, skipped) && (!skipped ==> d != 0)
    ensures Scanned(digits + [d], z, true) && (digits + [d])[z..] == digits[z..] + [d]
  {
  }

  lemma DigitFits(table: seq<nat>, digits: seq<nat>, s: seq<nat>, d: nat, z: nat, n: nat, bound: nat)
    requires |table| == 58 && Spells(table, digits, s) && d < 58 && z <= |digits| < n && Pow(58, n) <= bound
    ensures Num(58, digits[z..] + [d]) == 58 * Num(58, digits[z..]) + d < bound
  {
    hide Pow, Num;
    var t := digits[z..] + [d];
    NumSnoc(58, digits[z..], d);
    NumBound(58, t);
    PowMonotone(58, |t|, n);
  }

  lemma AllLetters(table: seq<nat>, digits: seq<nat>, input: seq<nat>)
    requires |table| == 58 && Spells(table, digits, input)
    ensures forall i :: 0 <= i < |input| ==> Letter(table, input[i])
  {
    forall i | 0 <= i < |input| ensures Letter(table, input[i]) {
      assert table[digits[i]] == input[i];
    }
  }

  /** The byte string of a text spelled by the given digits. */
  ghost function Decoded(digits: seq<nat>): seq<nat> {
    var z := Leading(digits, 0);
    Repeat(0, z) + Digits(256, Num(58, digits[z..]))
  }

  /** A text is spelled in one way. */
  lemma SpellsUnique(table: seq<nat>, digits: seq<nat>, digits': seq<nat>, s: seq<nat>)
    requires Ascii(table) && Spells(table, digits, s) && Spells(table, digits', s)
    ensures digits == digits'
  {
    forall i | 0 <= i < |s| ensures digits[i] == digits'[i] {
      assert table[digits[i]] == s[i] == table[digits'[i]];
    }
  }

  lemma LeadingRepeat(c: nat, z: nat, s: seq<nat>)
    requires s != [] ==> s[0] != c
    ensures var t := Repeat(c, z) + s;
      Leading(t, c) == z && t[z..] == s
  {
    LeadingIs(Repeat(c, z) + s, c, z);
  }

  /** Decoding undoes encoding, for every byte string. */
  lemma DecodeOfText(table: seq<nat>, input: seq<nat>, digits: seq<nat>)
    requires Ascii(table) && AllBelow(input, 256) && Spells(table, digits, Text(table, input))
    ensures Decoded(digits) == input
  {
    hide Num, Digits;
    var z := Leading(input, 0);
    var x := Num(256, input[z..]);
    DigitsNum(58, x);
    NumDigits(256, input[z..]);
    if input[z..] == [] {
      assert x == 0 by { NoDigits(256); }
      ZeroDigits(58);
    }
    var t := Repeat(0, z) + Digits(58, x);
    LettersOfZeros(table, z, Digits(58, x));
    SpellsUnique(table, digits, t, Text(table, input));
    LeadingRepeat(0, z, Digits(58, x));
    assert input == Repeat(0, z) + input[z..];
  }

  lemma ZeroDigits(b: nat)
    requires b > 1
    ensures Digits(b, 0) == []
  {
  }

  /** Encoding undoes decoding, for every valid text. */
  lemma TextOfDecoded(table: seq<nat>, digits: seq<nat>, s: seq<nat>)
    requires Ascii(table) && Spells(table, digits, s)
    ensures AllBelow(Decoded(digits), 256) && Text(table, Decoded(digits)) == s
  {
    hide Num, Digits, Letters;
    var z := Leading(digits, 0);
    var d := digits[z..];
    var x := Num(58, d);
    DigitsNum(256, x);
    NumDigits(58, d);
    if d == [] {
      assert x == 0 by { NoDigits(58); }
      ZeroDigits(256);
    }
    LeadingRepeat(0, z, Digits(256, x));
    assert digits == Repeat(0, z) + d;
    LettersOfZeros(table, z, d);
  }

  lemma LettersOfZeros(table: seq<nat>, z: nat, d: seq<nat>)
    requires |table| == 58 && AllBelow(d, 58)
    ensures Letters(table, Repeat(0, z) + d) == Repeat(table[0], z) + Letters(table, d)
  {
  }

  /** Decoding the text of a byte string gives it back. */
  method EncodeThenDecode(input: seq<nat>, alphabet: Alphabet) returns (r: Option<seq<nat>>)
    requires AllBelow(input, 256) && Tables(alphabet)
    ensures r == Some(input)
  {
    hide Num, Digits, Letter, Decoded, Letters, Leading;
    var text := Encode(input, alphabet);
    TextSpelled(alphabet.encodeTable, input);
    r := Decode(text, alphabet);
    ghost var digits :| Spells(alphabet.encodeTable, digits, text) && r.value == Decoded(digits);
    DecodeOfText(alphabet.encodeTable, input, digits);
  }

  lemma TextSpelled(table: seq<nat>, input: seq<nat>)
    requires |table| == 58
    ensures forall i :: 0 <= i < |Text(table, input)| ==> Letter(table, Text(table, input)[i])
  {
    hide Num, Digits;
    var z := Leading(input, 0);
    var t := Repeat(0, z) + Digits(58, Num(256, input[z..]));
    DigitsNum(58, Num(256, input[z..]));
    LettersOfZeros(table, z, t[z..]);
    AllLetters(table, t, Text(table, input));
  }

  /** Encoding what a valid text stands for gives it back; other texts are refused. */
  method DecodeThenEncode(s: seq<nat>, alphabet: Alphabet) returns (r: Option<seq<nat>>)
    requires Tables(alphabet)
    ensures r == if forall i :: 0 <= i < |s| ==> Letter(alphabet.encodeTable, s[i]) then Some(s) else None
  {
    hide Num, Digits, Letter, Decoded, Letters, Leading;
    var bytes := Decode(s, alphabet);
    if bytes.None? {
      return None;
    }
    ghost var digits :| Spells(alphabet.encodeTable, digits, s) && bytes.value == Decoded(digits);
    TextOfDecoded(alphabet.encodeTable, digits, s);
    var text := Encode(bytes.value, alphabet);
    return Some(text);
  }
}
