/** bip39: entropy as a sentence of words with a checksum, for any checksum hash and word list. */
module Mnemonics {
  import opened Wrappers
  import opened Bytes
  import opened Division
  import opened Words
  import opened Powers
  import Radix

  type Result<T> = Wrappers.Result<T, Error>

  datatype Error = InvalidMnemonic | EntropyLengthInvalid | ChecksumIncorrect | WordNotFound

  predicate ValidEntropySize(bits: int) {
    bits % 32 == 0 && 128 <= bits <= 256
  }

  predicate ValidWordCount(n: int) {
    n % 3 == 0 && 12 <= n <= 24
  }

  lemma {:induction false} BytesAreBits(n: nat)
    ensures Pow256(n) == Pow2(8 * n)
  {
    if n > 0 {
      BytesAreBits(n - 1);
      Pow2Adds(8, 8 * (n - 1));
      assert Pow2(8) == 256;
    }
  }

  lemma {:induction false} WordsAreBits(n: nat)
    ensures Radix.Pow(2048, n) == Pow2(11 * n)
  {
    if n > 0 {
      WordsAreBits(n - 1);
      Pow2Adds(11, 11 * (n - 1));
      assert Pow2(11) == 2048;
    }
  }

  /** The first k bits of a byte; zeros follow its last. */
  function FirstBits(h: byte, k: nat): nat {
    if k <= 8 then Radix.Quotient(h, Pow2(8 - k)) else h * Pow2(k - 8)
  }

  /** The entropy followed by the first |data| / 4 bits of its hash. */
  function Checksummed(hash: seq<byte> -> byte, data: seq<byte>): nat {
    FromBytes(data) * Pow2(|data| / 4) + FirstBits(hash(data), |data| / 4)
  }

  /** Entropy and word counts belong together: 4k bytes, k bits of checksum, 3k words. */
  lemma Sizes(k: nat)
    ensures Pow256(4 * k) * Pow2(k) == Radix.Pow(2048, 3 * k)
  {
    BytesAreBits(4 * k);
    WordsAreBits(3 * k);
    Pow2Adds(32 * k, k);
  }

  lemma TopBits(h: byte, k: nat)
    requires k <= 8
    ensures Radix.Quotient(h, Pow2(8 - k)) < Pow2(k)
  {
    Pow2Adds(8 - k, k);
    assert Pow2(8) == 256;
    Radix.QuotientBound(h, Pow2(8 - k), Pow2(k));
  }

  lemma ChecksummedBound(hash: seq<byte> -> byte, data: seq<byte>, k: nat)
    requires |data| == 4 * k && k <= 8
    ensures Checksummed(hash, data) < Radix.Pow(2048, 3 * k)
    ensures Radix.Quotient(Checksummed(hash, data), Pow2(k)) == FromBytes(data)
    ensures Radix.Remainder(Checksummed(hash, data), Pow2(k)) == Radix.Quotient(hash(data), Pow2(8 - k))
  {
    hide Pow2, Radix.Quotient, Radix.Remainder, Radix.Pow, FromBytes, Pow256;
    var d, c := FromBytes(data), Radix.Quotient(hash(data), Pow2(8 - k));
    BytesBound(data);
    TopBits(hash(data), k);
    Sizes(k);
    Joined(d, c, Pow256(4 * k), Pow2(k));
    Commute(d, Pow2(k));
    Radix.QuotientIs(Checksummed(hash, data), Pow2(k), d, c);
  }

  lemma Joined(d: nat, c: nat, p: nat, q: nat)
    requires d < p && c < q
    ensures d * q + c < p * q
  {
    Scaled(d + 1, p, q);
    Commute(q, d);
    Commute(q, d + 1);
    Distribute(q, d + 1, d);
  }

  /** addChecksum: one checksum bit after the other, the highest first. */
  method AddChecksum(hash: seq<byte> -> byte, data: seq<byte>) returns (r: seq<byte>)
    ensures r == ToBytes(Checksummed(hash, data))
  {
    hide Pow2, FromBytes, ToBytes, Radix.Quotient, FirstBits;
    var firstChecksumByte := hash(data);
    var checksumBitLength := |data| / 4;
    var dataBigInt := FromBytes(data);
    NoBits(FromBytes(data), firstChecksumByte);
    for i := 0 to checksumBitLength
      invariant dataBigInt == FromBytes(data) * Pow2(i) + FirstBits(firstChecksumByte, i)
    {
      NextBit(FromBytes(data), firstChecksumByte, i);
      dataBigInt := dataBigInt * 2;
      if i <= 7 && Radix.Quotient(firstChecksumByte, Pow2(7 - i)) % 2 > 0 {
        dataBigInt := dataBigInt + 1;
      }
    }
    return ToBytes(dataBigInt);
  }

  lemma NoBits(d: nat, h: byte)
    ensures d * Pow2(0) + FirstBits(h, 0) == d
  {
    assert Pow2(0) == 1 && Pow2(8) == 256;
    Radix.QuotientIs(h, 256, 0, h);
  }

  /** Beyond the eighth bit the shift count of the source wraps around, and the mask is zero. */
  lemma NextBit(d: nat, h: byte, i: nat)
    ensures d * Pow2(i + 1) + FirstBits(h, i + 1)
      == 2 * (d * Pow2(i) + FirstBits(h, i)) + if i <= 7 then Radix.Quotient(h, Pow2(7 - i)) % 2 else 0
  {
    if i <= 7 {
      BitOfByte(h, i);
    } else {
      BitBehindByte(h, i);
    }
    assert Pow2(i + 1) == 2 * Pow2(i);
    hide Pow2, FirstBits;
    assert d * (2 * Pow2(i)) == 2 * (d * Pow2(i));
  }

  lemma BitOfByte(h: byte, i: nat)
    requires i <= 7
    ensures FirstBits(h, i + 1) == 2 * FirstBits(h, i) + Radix.Quotient(h, Pow2(7 - i)) % 2
  {
    assert Pow2(8 - i) == 2 * Pow2(7 - i);
    hide Pow2;
    HalfQuotient(h, Pow2(7 - i));
  }

  lemma BitBehindByte(h: byte, i: nat)
    requires i > 7
    ensures FirstBits(h, i + 1) == 2 * FirstBits(h, i)
  {
    OneBit(h);
    assert Pow2(i + 1 - 8) == 2 * Pow2(i - 8);
    hide Pow2;
    assert h * (2 * Pow2(i - 8)) == 2 * (h * Pow2(i - 8));
  }

  lemma OneBit(h: byte)
    ensures FirstBits(h, 8) == h == h * Pow2(0)
  {
    assert Pow2(0) == 1;
  }

  lemma HalfQuotient(h: nat, q: nat)
    requires q > 0
    ensures Radix.Quotient(h, q) == 2 * Radix.Quotient(h, 2 * q) + Radix.Quotient(h, q) % 2
  {
    DivideTwice(h, q, 2);
    Commute(q, 2);
  }

  /** The masks and shifts that the source looks up by word count. */
  function ChecksumMask(words: nat): nat
    requires ValidWordCount(words)
  {
    if words == 12 then 15 else if words == 15 then 31 else if words == 18 then 63 else if words == 21 then 127 else 255
  }

  function ChecksumShift(words: nat): nat
    requires ValidWordCount(words) && words != 24
  {
    if words == 12 then 16 else if words == 15 then 8 else if words == 18 then 4 else 2
  }

  lemma MasksArePowers(words: nat)
    requires ValidWordCount(words)
    ensures ChecksumMask(words) + 1 == Pow2(words / 3)
    ensures words != 24 ==> ChecksumShift(words) == Pow2(8 - words / 3)
  {
    assert Pow2(0) == 1 && Pow2(1) == 2 && Pow2(2) == 4 && Pow2(3) == 8 && Pow2(4) == 16 && Pow2(5) == 32
      && Pow2(6) == 64
      && Pow2(7) == 128 && Pow2(8) == 256;
    hide Pow2;
  }

  ghost predicate Distinct(list: seq<string>) {
    forall i, j :: 0 <= i < j < |list| ==> list[i] != list[j]
  }

  function WordsOf(list: seq<string>, digits: seq<nat>): (ws: seq<string>)
    requires Radix.AllBelow(digits, |list|)
    ensures |ws| == |digits| && forall i :: 0 <= i < |ws| ==> ws[i] == list[digits[i]]
  {
    seq(|digits|, i requires 0 <= i < |digits| => list[digits[i]])
  }

  /** The words for an entropy. */
  ghost function Sentence(hash: seq<byte> -> byte, list: seq<string>, entropy: seq<byte>): (ws: seq<string>)
    requires |list| == 2048
  {
    WordsOf(list, Radix.Fixed(2048, Checksummed(hash, entropy), 3 * (|entropy| / 4)))
  }

  /** The word list, its reverse map, and the first byte of the checksum hash. */
  class Bip39 {
    const hash: seq<byte> -> byte
    var wordList: seq<string>
    var wordMap: map<string, nat>

    /** 2048 different words without white space, and the map of their indices. */
    ghost predicate Valid()
      reads this
    {
      && |wordList| == 2048 && Distinct(wordList) && AreWords(wordList)
      && (forall i :: 0 <= i < 2048 ==> wordList[i] in wordMap && wordMap[wordList[i]] == i)
      && forall w <- wordMap :: wordMap[w] < 2048 && wordList[wordMap[w]] == w
    }

    constructor (hash: seq<byte> -> byte, list: seq<string>)
      ensures this.hash == hash && wordList == list
      ensures |list| == 2048 && Distinct(list) && AreWords(list) ==> Valid()
    {
      this.hash := hash;
      wordList, wordMap := [], map[];
      new;
      SetWordList(list);
    }

    method SetWordList(list: seq<string>)
      modifies this
      ensures wordList == list
      ensures |list| == 2048 && Distinct(list) && AreWords(list) ==> Valid()
    {
      wordList := list;
      wordMap := map[];
      for i := 0 to |wordList|
        invariant wordList == list
        invariant Distinct(list) ==> forall j :: 0 <= j < i ==> list[j] in wordMap && wordMap[list[j]] == j
        invariant forall w <- wordMap :: wordMap[w] < i && list[wordMap[w]] == w
      {
        wordMap := wordMap[wordList[i] := i];
      }
    }

    method NewMnemonic(entropy: seq<byte>) returns (r: Result<string>)
      requires Valid()
      ensures !ValidEntropySize(8 * |entropy|) ==> r == Err(EntropyLengthInvalid)
      ensures ValidEntropySize(8 * |entropy|) ==> r == Ok(Join(Sentence(hash, wordList, entropy)))
    {
      hide Radix.Quotient, Radix.Remainder, FromBytes, ToBytes, Join, Checksummed, Radix.Fixed, Pad, Distinct, AreWords,
        WordsOf;
      var entropyBitLength := |entropy| * 8;
      var checksumBitLength := entropyBitLength / 32;
      var sentenceLength := (entropyBitLength + checksumBitLength) / 11;
      if !ValidEntropySize(entropyBitLength) {
        return Err(EntropyLengthInvalid);
      }
      assert sentenceLength == 3 * (|entropy| / 4);
      var checked := AddChecksum(hash, entropy);
      ghost var x := Checksummed(hash, entropy);
      FromToBytes(x);
      var entropyInt := FromBytes(checked);
      var words := new string[sentenceLength](i => "");
      var i := sentenceLength - 1;
      FixedStarts(x, sentenceLength);
      ghost var digits := Radix.Fixed(2048, x, sentenceLength);
      while i >= 0
        invariant -1 <= i < sentenceLength
        invariant Radix.Fixed(2048, entropyInt, i + 1) == digits[..i + 1]
        invariant forall j :: i < j < sentenceLength ==> words[j] == wordList[digits[j]]
      {
        FixedStep(entropyInt, i + 1, digits);
        var word := Radix.Remainder(entropyInt, 2048);
        entropyInt := Radix.Quotient(entropyInt, 2048);
        IndexBytes(word);
        var wordBytes := Pad(ToBytes(word), 2);
        words[i] := wordList[FromBytes(wordBytes)];
        i := i - 1;
      }
      assert words[..] == WordsOf(wordList, digits);
      return Ok(Join(words[..]));
    }

    method SplitMnemonicWords(mnemonic: string) returns (words: seq<string>, valid: bool)
      ensures valid == ValidWordCount(|Fields(mnemonic)|) && (valid ==> words == Fields(mnemonic))
    {
      words := Fields(mnemonic);
      valid := |words| % 3 == 0 && 12 <= |words| <= 24;
    }

    /** The entropy of a mnemonic with a right checksum. */
    method EntropyFromMnemonic(mnemonic: string) returns (r: Result<seq<byte>>)
      requires Valid()
      ensures EntropyOutcome(hash, wordList, Fields(mnemonic), r)
    {
      hide Radix.Quotient, Radix.Remainder, FromBytes, ToBytes, Pad, Distinct, AreWords, WordsOf, Radix.Num, Fields,
        Recovered;
      hide Pow2, Indices;
      var words, valid := SplitMnemonicWords(mnemonic);
      if !valid {
        return Err(InvalidMnemonic);
      }
      var b := 0;
      ghost var digits: seq<nat> := [];
      NoIndices(wordList, words);
      for i := 0 to |words|
        invariant |digits| == i && Indices(wordList, digits, words[..i]) && b == Radix.Num(2048, digits)
      {
        if words[i] !in wordMap {
          UnknownWord(wordList, words, i, wordMap);
          return Err(WordNotFound);
        }
        var index := wordMap[words[i]];
        AnotherIndex(wordList, digits, words, i, index);
        b := b * 2048;
        b := b + index;
        digits := digits + [index];
      }
      assert words[..|words|] == words;
      var checksumMask := ChecksumMask(|words|);
      MasksArePowers(|words|);
      var checksum := Radix.Remainder(b, checksumMask + 1);
      b := Radix.Quotient(b, checksumMask + 1);
      var entropy := Pad(ToBytes(b), |words| / 3 * 4);
      var entropyChecksum: nat := hash(entropy);
      if |words| != 24 {
        entropyChecksum := Radix.Quotient(entropyChecksum, ChecksumShift(|words|));
      } else {
        WholeByte(entropyChecksum);
      }
      RecoveredIs(hash, digits, checksum, entropy, entropyChecksum);
      IndicesLength(wordList, digits, words);
      if checksum != entropyChecksum {
        return Err(ChecksumIncorrect);
      }
      return Ok(entropy);
    }

    /** The number whose base-2048 digits are the indices of the words; a missing word counts as zero. */
    method NumberOf(words: seq<string>) returns (x: nat, ghost digits: seq<nat>)
      requires Valid()
      ensures (forall i :: 0 <= i < |words| ==> words[i] in wordMap) ==>
        Indices(wordList, digits, words) && x == Radix.Num(2048, digits)
    {
      hide Radix.Num, Indices, WordsOf, Distinct, AreWords;
      x, digits := 0, [];
      NoIndices(wordList, words);
      for i := 0 to |words|
        invariant (forall j :: 0 <= j < i ==> words[j] in wordMap) ==>
          Indices(wordList, digits, words[..i]) && x == Radix.Num(2048, digits)
      {
        var index := if words[i] in wordMap then wordMap[words[i]] else 0;
        if forall j :: 0 <= j < i + 1 ==> words[j] in wordMap {
          AnotherIndex(wordList, digits, words, i, index);
        }
        x := x * 2048;
        x := x + index;
        digits := digits + [index];
      }
      assert words[..|words|] == words;
    }

    /** With raw set the entropy without checksum, by a different route; else the number of the sentence with its
        checksum. */
    method MnemonicToByteArray(mnemonic: string, raw: bool) returns (r: Result<seq<byte>>)
      requires Valid()
      ensures Split(mnemonic) == Fields(mnemonic) && raw ==>
        EntropyOutcome(hash, wordList, Fields(mnemonic),
          if r == Err(InvalidMnemonic) && ValidWordCount(|Fields(mnemonic)|) then Err(WordNotFound) else r)
      ensures Split(mnemonic) == Fields(mnemonic) && !raw ==> CheckedOutcome(hash, wordList, Fields(mnemonic), r)
    {
      hide Radix.Quotient, Radix.Remainder, FromBytes, ToBytes, Pad, Distinct, AreWords, WordsOf, Radix.Num, Fields,
        Split;
      hide Recovered, Pow2, Indices, Checksummed, UnknownIn, ChecksumBits, FullBytes;
      var mnemonicSlice := Split(mnemonic);
      ArraySizes(|mnemonicSlice|);
      var checksumBitSize := ChecksumBits(|mnemonicSlice|);
      var fullByteSize := FullBytes(|mnemonicSlice|);
      var checksumByteSize := fullByteSize - fullByteSize % 4;
      var valid := IsMnemonicValid(mnemonic);
      if !valid {
        return Err(InvalidMnemonic);
      }
      var checksummedEntropy, digits := NumberOf(mnemonicSlice);
      var rawEntropy := Radix.Quotient(checksummedEntropy, Pow2(checksumBitSize));
      var rawEntropyBytes := Pad(ToBytes(rawEntropy), checksumByteSize);
      var checksummedEntropyBytes := Pad(ToBytes(checksummedEntropy), fullByteSize);
      if mnemonicSlice == Fields(mnemonic) {
        IndicesLength(wordList, digits, mnemonicSlice);
        SameCheck(hash, digits, rawEntropyBytes);
        CheckedFits(digits);
      }
      var unpadded := AddChecksum(hash, rawEntropyBytes);
      var again := Pad(unpadded, fullByteSize);
      if checksummedEntropyBytes != again {
        return Err(ChecksumIncorrect);
      }
      if raw {
        return Ok(rawEntropyBytes);
      }
      return Ok(checksummedEntropyBytes);
    }

    method IsMnemonicValid(mnemonic: string) returns (valid: bool)
      requires Valid()
      ensures valid <==> ValidWordCount(|Fields(mnemonic)|) && !UnknownIn(wordList, Fields(mnemonic))
      ensures valid ==> forall i :: 0 <= i < |Fields(mnemonic)| ==> Fields(mnemonic)[i] in wordMap
    {
      hide Fields;
      var words := Fields(mnemonic);
      if |words| % 3 != 0 || |words| < 12 || |words| > 24 {
        return false;
      }
      for i := 0 to |words|
        invariant forall j :: 0 <= j < i ==> words[j] in wordMap
      {
        if words[i] !in wordMap {
          return false;
        }
      }
      return true;
    }
  }

  function ChecksumBits(words: nat): nat {
    words * 11 % 32
  }

  function FullBytes(words: nat): nat {
    (words * 11 - ChecksumBits(words)) / 8 + 1
  }

  lemma ArraySizes(words: nat)
    ensures FullBytes(words) - FullBytes(words) % 4 >= 0
    ensures ValidWordCount(words) ==> ChecksumBits(words) == words / 3 && FullBytes(words) == words / 3 * 4 + 1
    ensures ValidWordCount(words) ==> FullBytes(words) - FullBytes(words) % 4 == words / 3 * 4
  {
  }

  ghost predicate UnknownIn(list: seq<string>, ws: seq<string>) {
    exists i :: 0 <= i < |ws| && ws[i] !in list
  }

  /** What EntropyFromMnemonic answers for the words of a mnemonic. */
  ghost predicate EntropyOutcome(hash: seq<byte> -> byte, list: seq<string>, ws: seq<string>, r: Result<seq<byte>>) {
    if !ValidWordCount(|ws|) then r == Err(InvalidMnemonic)
    else if UnknownIn(list, ws) then r == Err(WordNotFound)
    else exists digits :: |digits| == |ws| && Indices(list, digits, ws) && r == Recovered(hash, digits)
  }

  /** What MnemonicToByteArray answers when it keeps the checksum. */
  ghost predicate CheckedOutcome(hash: seq<byte> -> byte, list: seq<string>, ws: seq<string>, r: Result<seq<byte>>) {
    if !ValidWordCount(|ws|) || UnknownIn(list, ws) then r == Err(InvalidMnemonic)
    else
      exists digits ::
        |digits| == |ws| && Indices(list, digits, ws) && CheckedNumber(Recovered(hash, digits), digits, r)
  }

  ghost predicate CheckedNumber(recovered: Result<seq<byte>>, digits: seq<nat>, r: Result<seq<byte>>) {
    if recovered.Err? then r == Err(recovered.error)
    else r.Ok? && |r.value| == |digits| / 3 * 4 + 1 && FromBytes(r.value) == Radix.Num(2048, digits)
  }

  /** The number of a sentence and its checksum fill the bytes reserved for them. */
  lemma CheckedFits(digits: seq<nat>)
    requires ValidWordCount(|digits|) && Radix.AllBelow(digits, 2048)
    ensures var size, x := |digits| / 3 * 4 + 1, Radix.Num(2048, digits);
      |Pad(ToBytes(x), size)| == size && FromBytes(Pad(ToBytes(x), size)) == x
  {
    hide FromBytes, ToBytes, Pad, Radix.Num, Radix.Pow, Pow256;
    Radix.NumBound(2048, digits);
    ByteMore(|digits| / 3);
    PadLength(Radix.Num(2048, digits), |digits| / 3 * 4 + 1);
  }

  lemma NoIndices(list: seq<string>, ws: seq<string>)
    ensures Indices(list, [], ws[..0]) && Radix.Num(2048, []) == 0
  {
  }

  lemma AnotherIndex(list: seq<string>, digits: seq<nat>, ws: seq<string>, i: nat, d: nat)
    requires i < |ws| && Indices(list, digits, ws[..i]) && d < |list| && list[d] == ws[i]
    ensures Indices(list, digits + [d], ws[..i + 1])
      && Radix.Num(2048, digits + [d]) == 2048 * Radix.Num(2048, digits) + d
  {
    Radix.NumSnoc(2048, digits, d);
    assert ws[..i + 1] == ws[..i] + [ws[i]];
    assert WordsOf(list, digits + [d]) == WordsOf(list, digits) + [list[d]];
  }

  lemma UnknownWord(list: seq<string>, ws: seq<string>, i: nat, m: map<string, nat>)
    requires i < |ws| && ws[i] !in m && forall j :: 0 <= j < |list| ==> list[j] in m
    ensures UnknownIn(list, ws)
  {
  }

  lemma IndicesLength(list: seq<string>, digits: seq<nat>, ws: seq<string>)
    requires Indices(list, digits, ws)
    ensures |digits| == |ws| && Radix.AllBelow(digits, |list|) && !UnknownIn(list, ws)
  {
    forall i | 0 <= i < |ws| ensures ws[i] in list {
      assert ws[i] == list[digits[i]];
    }
  }

  lemma WholeByte(h: nat)
    ensures Radix.Quotient(h, Pow2(0)) == h
  {
    assert Pow2(0) == 1;
  }

  /** Comparing all bytes of the checked number tells the same as comparing the checksum bits. */
  lemma SameCheck(hash: seq<byte> -> byte, digits: seq<nat>, e: seq<byte>)
    requires ValidWordCount(|digits|) && Radix.AllBelow(digits, 2048)
    requires e == Pad(ToBytes(Radix.Quotient(Radix.Num(2048, digits), Pow2(|digits| / 3))), |digits| / 3 * 4)
    ensures var size, x := |digits| / 3 * 4 + 1, Radix.Num(2048, digits);
      Recovered(hash, digits) ==
        if Pad(ToBytes(x), size) == Pad(ToBytes(Checksummed(hash, e)), size) then Ok(e) else Err(ChecksumIncorrect)
  {
    hide Radix.Quotient, Radix.Remainder, FromBytes, ToBytes, Radix.Fixed, Pad, Radix.Num, Pow2, Radix.Pow, Pow256;
    var k := |digits| / 3;
    var x := Radix.Num(2048, digits);
    Radix.NumBound(2048, digits);
    Sizes(k);
    EntropyFits(x, k);
    ChecksummedBound(hash, e, k);
    ByteMore(k);
    PadLength(x, 4 * k + 1);
    PadLength(Checksummed(hash, e), 4 * k + 1);
    Radix.QuotientAndRemainder(x, Pow2(k));
    Radix.QuotientAndRemainder(Checksummed(hash, e), Pow2(k));
  }

  lemma ByteMore(k: nat)
    requires k <= 8
    ensures Radix.Pow(2048, 3 * k) <= Pow256(4 * k + 1)
  {
    BytesAreBits(4 * k + 1);
    WordsAreBits(3 * k);
    Pow2Adds(33 * k, 8 - k);
    AtLeast(Pow2(33 * k), Pow2(8 - k));
  }

  /** The entropy part has 4k bytes. */
  lemma EntropyFits(x: nat, k: nat)
    requires x < Radix.Pow(2048, 3 * k)
    ensures var q := Radix.Quotient(x, Pow2(k));
      q < Pow256(4 * k) && |Pad(ToBytes(q), 4 * k)| == 4 * k && FromBytes(Pad(ToBytes(q), 4 * k)) == q
  {
    hide Radix.Quotient, FromBytes, ToBytes, Pad, Pow2, Radix.Pow, Pow256;
    Sizes(k);
    Commute(Pow256(4 * k), Pow2(k));
    Radix.QuotientBound(x, Pow2(k), Pow256(4 * k));
    PadLength(Radix.Quotient(x, Pow2(k)), 4 * k);
  }

  lemma RecoveredIs(hash: seq<byte> -> byte, digits: seq<nat>, checksum: nat, e: seq<byte>, expected: nat)
    requires ValidWordCount(|digits|) && checksum == Radix.Remainder(Radix.Num(2048, digits), Pow2(|digits| / 3))
    requires e == Pad(ToBytes(Radix.Quotient(Radix.Num(2048, digits), Pow2(|digits| / 3))), |digits| / 3 * 4)
    requires expected == Radix.Quotient(hash(e), Pow2(8 - |digits| / 3))
    ensures Recovered(hash, digits) == if checksum == expected then Ok(e) else Err(ChecksumIncorrect)
  {
  }

  /** The digits of a checked number back as entropy, or the reason why not. */
  ghost function Recovered(hash: seq<byte> -> byte, digits: seq<nat>): Result<seq<byte>>
    requires ValidWordCount(|digits|)
  {
    var k := |digits| / 3;
    var x := Radix.Num(2048, digits);
    var e := Pad(ToBytes(Radix.Quotient(x, Pow2(k))), 4 * k);
    if Radix.Remainder(x, Pow2(k)) == Radix.Quotient(hash(e), Pow2(8 - k)) then Ok(e) else Err(ChecksumIncorrect)
  }

  /** The index of each word of a sentence. */
  ghost predicate Indices(list: seq<string>, digits: seq<nat>, ws: seq<string>) {
    Radix.AllBelow(digits, |list|) && ws == WordsOf(list, digits)
  }

  lemma IndicesUnique(list: seq<string>, digits: seq<nat>, digits': seq<nat>, ws: seq<string>)
    requires Distinct(list) && Indices(list, digits, ws) && Indices(list, digits', ws)
    ensures digits == digits'
  {
    forall i | 0 <= i < |ws| ensures digits[i] == digits'[i] {
      assert list[digits[i]] == ws[i] == list[digits'[i]];
    }
  }

  /** The sentence of an entropy leads back to it. */
  lemma RecoveredOfSentence(hash: seq<byte> -> byte, list: seq<string>, entropy: seq<byte>, digits: seq<nat>)
    requires |list| == 2048 && Distinct(list) && ValidEntropySize(8 * |entropy|)
    requires Indices(list, digits, Sentence(hash, list, entropy))
    ensures ValidWordCount(|digits|) && Recovered(hash, digits) == Ok(entropy)
  {
    hide Radix.Quotient, Radix.Remainder, FromBytes, ToBytes, Checksummed, Radix.Fixed, Pad, Distinct, WordsOf,
      Radix.Num, Pow2;
    var k := |entropy| / 4;
    var x := Checksummed(hash, entropy);
    var fixed := Radix.Fixed(2048, x, 3 * k);
    IndicesUnique(list, digits, fixed, Sentence(hash, list, entropy));
    ChecksummedBound(hash, entropy, k);
    Radix.FixedNum(2048, x, 3 * k);
    PadRestores(entropy);
  }

  /** Only the sentence of an entropy leads to it. */
  lemma SentenceOfRecovered(hash: seq<byte> -> byte, list: seq<string>, digits: seq<nat>, ws: seq<string>)
    requires |list| == 2048 && Indices(list, digits, ws) && ValidWordCount(|ws|) && Recovered(hash, digits).Ok?
    ensures var e := Recovered(hash, digits).value;
      ValidEntropySize(8 * |e|) && Sentence(hash, list, e) == ws
  {
    hide Radix.Quotient, Radix.Remainder, FromBytes, ToBytes, Radix.Fixed, Pad, WordsOf, Radix.Num, Pow2, Radix.Pow,
      Pow256;
    var k := |digits| / 3;
    var x := Radix.Num(2048, digits);
    Radix.NumBound(2048, digits);
    EntropyFits(x, k);
    Radix.QuotientAndRemainder(x, Pow2(k));
    Commute(Radix.Quotient(x, Pow2(k)), Pow2(k));
    Radix.FixedOfNum(2048, digits);
  }

  /** The mnemonic of an entropy of any of the five sizes leads back to it, by either route. */
  method EntropyRoundTrip(b: Bip39, entropy: seq<byte>) returns (plain: Result<seq<byte>>, raw: Result<seq<byte>>)
    requires b.Valid() && ValidEntropySize(8 * |entropy|)
    ensures plain == raw == Ok(entropy)
  {
    hide Radix.Quotient, Radix.Remainder, FromBytes, ToBytes, Checksummed, Radix.Fixed, Pad, Distinct, WordsOf,
      Radix.Num, Pow2;
    hide Join, Split, Fields, Recovered, Indices, AreWords, Sentence, UnknownIn;
    var r := b.NewMnemonic(entropy);
    var mnemonic := r.value;
    SentenceWords(b.hash, b.wordList, entropy);
    var ws := Sentence(b.hash, b.wordList, entropy);
    FieldsOfJoin(ws);
    SplitOfJoin(ws);
    plain := b.EntropyFromMnemonic(mnemonic);
    OutcomeOfSentence(b.hash, b.wordList, entropy, plain);
    raw := b.MnemonicToByteArray(mnemonic, true);
    OutcomeOfSentence(b.hash, b.wordList, entropy, if raw == Err(InvalidMnemonic) then Err(WordNotFound) else raw);
  }

  lemma SentenceWords(hash: seq<byte> -> byte, list: seq<string>, entropy: seq<byte>)
    requires |list| == 2048 && AreWords(list) && ValidEntropySize(8 * |entropy|)
    ensures var ws := Sentence(hash, list, entropy);
      AreWords(ws) && ws != [] && ValidWordCount(|ws|) && !UnknownIn(list, ws)
  {
    hide Radix.Fixed, Checksummed;
  }

  lemma OutcomeOfSentence(hash: seq<byte> -> byte, list: seq<string>, entropy: seq<byte>, r: Result<seq<byte>>)
    requires |list| == 2048 && Distinct(list) && AreWords(list) && ValidEntropySize(8 * |entropy|)
    requires EntropyOutcome(hash, list, Sentence(hash, list, entropy), r)
    ensures r == Ok(entropy)
  {
    hide Recovered, Indices, Sentence, UnknownIn, Distinct, AreWords;
    SentenceWords(hash, list, entropy);
    var ws := Sentence(hash, list, entropy);
    var digits :| |digits| == |ws| && Indices(list, digits, ws) && r == Recovered(hash, digits);
    RecoveredOfSentence(hash, list, entropy, digits);
  }

  lemma FixedStarts(x: nat, n: nat)
    ensures Radix.Fixed(2048, x, n) == Radix.Fixed(2048, x, n)[..n]
  {
  }

  lemma FixedStep(x: nat, n: nat, digits: seq<nat>)
    requires 0 < n <= |digits| && Radix.Fixed(2048, x, n) == digits[..n]
    ensures Radix.Fixed(2048, Radix.Quotient(x, 2048), n - 1) == digits[..n - 1]
      && digits[n - 1] == Radix.Remainder(x, 2048)
  {
    hide Radix.Quotient, Radix.Remainder;
    var s := Radix.Fixed(2048, Radix.Quotient(x, 2048), n - 1);
    assert digits[..n] == s + [Radix.Remainder(x, 2048)];
    assert digits[..n][n - 1] == digits[n - 1];
    assert digits[..n - 1] == digits[..n][..n - 1];
  }

  /** Two bytes hold the index of a word. */
  lemma IndexBytes(word: nat)
    requires word < 2048
    ensures FromBytes(Pad(ToBytes(word), 2)) == word
  {
    assert Pow256(2) == 256 * Pow256(1) == 65536;
    PadLength(word, 2);
  }
}
