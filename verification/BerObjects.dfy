/** BER objects, how the source reads them and how it prints them with definite lengths. */
module BerObjects {
  import opened Wrappers
  import opened Bytes

  type Result<T> = Wrappers.Result<T, Error>

  /** Panic stands for reading beyond the input. */
  datatype Error = Empty | LengthTooLong | NegativeLength | LeadingZero | TooLittleData | IndefinitePrimitive
    | InvalidFormat | Panic

  datatype Object = Structured(tag: seq<byte>, content: seq<Object>)
    | Primitive(tag: seq<byte>, length: nat, bytes: seq<byte>)

  datatype Length = Length(indefinite: bool, length: nat, next: nat)

  const TWO_31 := 0x8000_0000

  /** b & 0x20 */
  predicate Constructed(b: byte) {
    b / 32 % 2 == 1
  }

  /** The end of the continuation bytes of a long tag. */
  function SkipTag(ber: seq<byte>, i: nat): (r: Result<nat>)
    ensures r.Ok? ==> i < r.value <= |ber|
    decreases |ber| - i
  {
    if i >= |ber| then Err(Panic) else if ber[i] >= 0x80 then SkipTag(ber, i + 1) else Ok(i + 1)
  }

  function TagEnd(ber: seq<byte>, offset: nat): (r: Result<nat>)
    ensures r.Ok? ==> offset < r.value <= |ber|
  {
    if offset >= |ber| then Err(Panic) else if ber[offset] % 32 == 31 then SkipTag(ber, offset + 1) else Ok(offset + 1)
  }

  function LengthAt(ber: seq<byte>, offset: nat): (r: Result<Length>)
    ensures r.Ok? ==> offset < r.value.next <= |ber|
  {
    if offset >= |ber| then Err(Panic)
    else
      var l := ber[offset];
      var next := offset + 1;
      if l > 0x80 then
        var n := l - 0x80;
        if n > 4 then Err(LengthTooLong)
        else if next >= |ber| then Err(Panic)
        else if n == 4 && ber[next] > 0x7F then Err(NegativeLength)
        else if ber[next] == 0 then Err(LeadingZero)
        else if next + n > |ber| then Err(Panic)
        else Ok(Length(false, FromBytes(ber[next..next + n]), next + n))
      else Ok(Length(l == 0x80, if l == 0x80 then 0 else l, next))
  }

  datatype Read = Read(obj: Object, end: nat)
  datatype ReadSubs = ReadSubs(objects: seq<Object>, end: nat)

  /** readObject */
  function ReadObject(ber: seq<byte>, offset: nat): (r: Result<Read>)
    ensures r.Ok? ==> offset < r.value.end <= |ber|
    decreases |ber| - offset, 0
  {
    match TagEnd(ber, offset)
    case Err(e) => Err(e)
    case Ok(tagEnd) =>
      match LengthAt(ber, tagEnd)
      case Err(e) => Err(e)
      case Ok(Length(indefinite, length, next)) =>
        var contentEnd := next + length;
        if contentEnd > |ber| then Err(TooLittleData)
        else if !Constructed(ber[offset]) then
          if indefinite then Err(IndefinitePrimitive)
          else Ok(Read(Primitive(ber[offset..tagEnd], length, ber[next..contentEnd]), contentEnd))
        else
          match ReadContent(ber, next, contentEnd, indefinite)
          case Err(e) => Err(e)
          case Ok(ReadSubs(objects, end)) =>
            Ok(Read(Structured(ber[offset..tagEnd], objects), if indefinite then end + 2 else contentEnd))
  }

  /** The loop over the objects inside a constructed one. */
  function ReadContent(ber: seq<byte>, offset: nat, contentEnd: nat, indefinite: bool): (r: Result<ReadSubs>)
    ensures r.Ok? && indefinite ==> offset < r.value.end && r.value.end + 2 <= |ber|
    decreases |ber| - offset, 1
  {
    if offset >= contentEnd && !indefinite then Ok(ReadSubs([], offset))
    else
      match ReadObject(ber, offset)
      case Err(e) => Err(e)
      case Ok(Read(obj, next)) =>
        if indefinite && |ber| - next < 2 then Err(InvalidFormat)
        else if indefinite && ber[next] == 0 && ber[next + 1] == 0 then Ok(ReadSubs([obj], next))
        else Prepend([obj], ReadContent(ber, next, contentEnd, indefinite))
  }

  function Prepend(objects: seq<Object>, r: Result<ReadSubs>): (s: Result<ReadSubs>)
    ensures s.Ok? == r.Ok? && (r.Ok? ==> s.value.end == r.value.end)
  {
    match r
    case Err(e) => Err(e)
    case Ok(ReadSubs(more, end)) => Ok(ReadSubs(objects + more, end))
  }

  /** The definite form with as few length bytes as possible. */
  function LengthBytes(n: nat): (s: seq<byte>)
    ensures |s| > 0
  {
    if n < 128 then [n] else [(0x80 + |ToBytes(n)|) % 256] + ToBytes(n)
  }

  function Print(o: Object): seq<byte>
    decreases o
  {
    match o
    case Structured(tag, content) => tag + LengthBytes(|PrintAll(content)|) + PrintAll(content)
    case Primitive(tag, length, bytes) => tag + LengthBytes(length) + bytes
  }

  function PrintAll(os: seq<Object>): seq<byte>
    decreases os
  {
    if os == [] then [] else Print(os[0]) + PrintAll(os[1..])
  }

  /** A tag that is read as a whole. */
  predicate GoodTag(tag: seq<byte>) {
    tag != [] && TagEnd(tag, 0) == Ok(|tag|)
  }

  /** What reading makes. */
  predicate Good(o: Object)
    decreases o
  {
    GoodTag(o.tag) &&
    match o
    case Structured(tag, content) => Constructed(tag[0]) && forall i :: 0 <= i < |content| ==> Good(content[i])
    case Primitive(tag, length, bytes) => !Constructed(tag[0]) && length == |bytes|
  }

  lemma {:induction false} SkipTagShift(ber: seq<byte>, i: nat, s: seq<byte>, j: nat)
    requires j <= |s| && i + (|s| - j) <= |ber| && ber[i..i + (|s| - j)] == s[j..]
    ensures SkipTag(s, j).Ok? ==> SkipTag(ber, i) == Ok(i + (SkipTag(s, j).value - j))
    decreases |s| - j
  {
    if j < |s| {
      assert ber[i] == ber[i..i + (|s| - j)][0] == s[j];
      if ber[i] >= 0x80 {
        assert ber[i + 1..i + 1 + (|s| - j - 1)] == s[j + 1..] by {
          assert ber[i..i + (|s| - j)][1..] == ber[i + 1..i + (|s| - j)];
        }
        SkipTagShift(ber, i + 1, s, j + 1);
      }
    }
  }

  /** A good tag is recognized wherever it stands. */
  lemma TagAnywhere(ber: seq<byte>, offset: nat, tag: seq<byte>)
    requires GoodTag(tag) && offset + |tag| <= |ber| && ber[offset..offset + |tag|] == tag
    ensures TagEnd(ber, offset) == Ok(offset + |tag|) && ber[offset] == tag[0]
  {
    assert ber[offset] == ber[offset..offset + |tag|][0] == tag[0];
    if tag[0] % 32 == 31 {
      assert ber[offset + 1..offset + 1 + (|tag| - 1)] == tag[1..] by {
        assert ber[offset..offset + |tag|][1..] == ber[offset + 1..offset + |tag|];
      }
      SkipTagShift(ber, offset + 1, tag, 1);
    }
  }

  /** The bytes of a tag that was read are a good tag. */
  lemma TagReadIsGood(ber: seq<byte>, offset: nat)
    requires TagEnd(ber, offset).Ok?
    ensures GoodTag(ber[offset..TagEnd(ber, offset).value]) && ber[offset..TagEnd(ber, offset).value][0] == ber[offset]
  {
    var end := TagEnd(ber, offset).value;
    var tag := ber[offset..end];
    if ber[offset] % 32 == 31 {
      SkipTagCut(ber, offset + 1, end, tag, 1);
    }
  }

  lemma {:induction false} SkipTagCut(ber: seq<byte>, i: nat, end: nat, tag: seq<byte>, j: nat)
    requires SkipTag(ber, i) == Ok(end) && j <= i && tag == ber[i - j..end]
    ensures SkipTag(tag, j) == Ok(|tag|)
    decreases |ber| - i
  {
    assert tag[j] == ber[i];
    if ber[i] >= 0x80 {
      SkipTagCut(ber, i + 1, end, tag, j + 1);
    }
  }

  /** Only lengths of at most four bytes, and below 2^31, are read back. */
  lemma LengthAnywhere(ber: seq<byte>, offset: nat, n: nat)
    requires n < TWO_31 && offset + |LengthBytes(n)| <= |ber|
      && ber[offset..offset + |LengthBytes(n)|] == LengthBytes(n)
    ensures LengthAt(ber, offset) == Ok(Length(false, n, offset + |LengthBytes(n)|))
  {
    var s := LengthBytes(n);
    SliceTail(ber, offset, s);
    if n >= 128 {
      var t := ToBytes(n);
      assert s[1..] == t;
      FourBytes(n);
      FromToBytes(n);
      LongLength(ber, offset, t);
    }
  }

  lemma LongLength(ber: seq<byte>, offset: nat, t: seq<byte>)
    requires 0 < |t| <= 4 && t[0] != 0 && (|t| == 4 ==> t[0] <= 0x7F)
    requires offset + 1 + |t| <= |ber| && ber[offset] == 0x80 + |t| && ber[offset + 1..offset + 1 + |t|] == t
    ensures LengthAt(ber, offset) == Ok(Length(false, FromBytes(t), offset + 1 + |t|))
  {
    hide FromBytes;
    SliceTail(ber, offset + 1, t);
  }

  lemma SliceTail(ber: seq<byte>, offset: nat, s: seq<byte>)
    requires s != [] && offset + |s| <= |ber| && ber[offset..offset + |s|] == s
    ensures ber[offset] == s[0] && ber[offset + 1..offset + |s|] == s[1..]
  {
    assert ber[offset] == ber[offset..offset + |s|][0];
    assert ber[offset + 1..offset + |s|] == ber[offset..offset + |s|][1..];
  }

  /** Where the parts of a longer string lie. */
  lemma SliceParts(ber: seq<byte>, offset: nat, s: seq<byte>, t: seq<byte>)
    requires offset + |s + t| <= |ber| && ber[offset..offset + |s + t|] == s + t
    ensures ber[offset..offset + |s|] == s && ber[offset + |s|..offset + |s| + |t|] == t
  {
    var whole := ber[offset..offset + |s + t|];
    assert ber[offset..offset + |s|] == whole[..|s|];
    assert ber[offset + |s|..offset + |s| + |t|] == whole[|s|..];
  }

  lemma FourBytes(n: nat)
    requires n < TWO_31
    ensures |ToBytes(n)| <= 4 && (|ToBytes(n)| == 4 ==> ToBytes(n)[0] <= 0x7F)
  {
    assert Pow256(4) == 256 * Pow256(3) == 256 * (256 * Pow256(2)) && Pow256(2) == 65536;
    ToBytesLength(n, 4);
    var t := ToBytes(n);
    FromToBytes(n);
    if |t| == 4 {
      assert t == [t[0]] + t[1..];
      ConcatBytes([t[0]], t[1..]);
      assert [t[0]][..0] == [];
      assert Pow256(3) == 0x100_0000;
    }
  }

  /** The printed form of an object is read back as the same object, to its end, wherever it stands. */
  lemma {:induction false} PrintReads(o: Object, ber: seq<byte>, offset: nat)
    requires Good(o) && |Print(o)| < TWO_31 && offset + |Print(o)| <= |ber|
      && ber[offset..offset + |Print(o)|] == Print(o)
    ensures ReadObject(ber, offset) == Ok(Read(o, offset + |Print(o)|))
    decreases o
  {
    hide GoodTag, TagEnd, LengthAt, LengthBytes, Constructed, ReadContent;
    match o
    case Structured(tag, content) =>
      var inner := PrintAll(content);
      HeaderReads(o, ber, offset, tag, |inner|, inner);
      var next := offset + |tag| + |LengthBytes(|inner|)|;
      PrintAllReads(content, ber, next);
    case Primitive(tag, length, bytes) =>
      HeaderReads(o, ber, offset, tag, length, bytes);
  }

  lemma HeaderReads(o: Object, ber: seq<byte>, offset: nat, tag: seq<byte>, n: nat, content: seq<byte>)
    requires GoodTag(tag) && n == |content| && Print(o) == tag + LengthBytes(n) + content && |Print(o)| < TWO_31
    requires offset + |Print(o)| <= |ber| && ber[offset..offset + |Print(o)|] == Print(o)
    ensures var next := offset + |tag| + |LengthBytes(n)|;
      TagEnd(ber, offset) == Ok(offset + |tag|) && LengthAt(ber, offset + |tag|) == Ok(Length(false, n, next))
      && next + n == offset + |Print(o)| && ber[next..next + n] == content && ber[offset..offset + |tag|] == tag
      && ber[offset] == tag[0]
  {
    hide GoodTag, TagEnd, LengthAt, LengthBytes, Print;
    assert tag + LengthBytes(n) + content == tag + (LengthBytes(n) + content);
    SliceParts(ber, offset, tag, LengthBytes(n) + content);
    SliceParts(ber, offset + |tag|, LengthBytes(n), content);
    TagAnywhere(ber, offset, tag);
    LengthAnywhere(ber, offset + |tag|, n);
  }

  lemma {:induction false} PrintAllReads(os: seq<Object>, ber: seq<byte>, offset: nat)
    requires (forall i :: 0 <= i < |os| ==> Good(os[i])) && |PrintAll(os)| < TWO_31
    requires offset + |PrintAll(os)| <= |ber| && ber[offset..offset + |PrintAll(os)|] == PrintAll(os)
    ensures ReadContent(ber, offset, offset + |PrintAll(os)|, false) == Ok(ReadSubs(os, offset + |PrintAll(os)|))
    decreases os
  {
    hide Print, Good, ReadObject;
    if os != [] {
      var first, rest := Print(os[0]), os[1..];
      SliceParts(ber, offset, first, PrintAll(rest));
      PrintReads(os[0], ber, offset);
      PrintAllReads(rest, ber, offset + |first|);
      assert os == [os[0]] + rest;
      hide ReadContent;
      ContentFirst(ber, offset, offset + |PrintAll(os)|, os[0], offset + |first|);
    }
  }

  /** The first object of definite content. */
  lemma ContentFirst(ber: seq<byte>, offset: nat, contentEnd: nat, o: Object, next: nat)
    requires offset < contentEnd && ReadObject(ber, offset) == Ok(Read(o, next))
    ensures ReadContent(ber, offset, contentEnd, false) == Prepend([o], ReadContent(ber, next, contentEnd, false))
  {
    hide ReadObject;
  }

  lemma {:induction false} ReadIsGood(ber: seq<byte>, offset: nat)
    requires ReadObject(ber, offset).Ok?
    ensures Good(ReadObject(ber, offset).value.obj)
    decreases |ber| - offset, 0
  {
    hide LengthAt, TagEnd, GoodTag, Constructed;
    TagReadIsGood(ber, offset);
    var tagEnd := TagEnd(ber, offset).value;
    var Length(indefinite, length, next) := LengthAt(ber, tagEnd).value;
    if Constructed(ber[offset]) {
      ContentIsGood(ber, next, next + length, indefinite);
    }
  }

  lemma {:induction false} ContentIsGood(ber: seq<byte>, offset: nat, contentEnd: nat, indefinite: bool)
    requires ReadContent(ber, offset, contentEnd, indefinite).Ok?
    ensures forall o <- ReadContent(ber, offset, contentEnd, indefinite).value.objects :: Good(o)
    decreases |ber| - offset, 1
  {
    hide Good, ReadObject;
    if offset < contentEnd || indefinite {
      ReadIsGood(ber, offset);
      var next := ReadObject(ber, offset).value.end;
      if !(indefinite && ber[next] == 0 && ber[next + 1] == 0) {
        ContentIsGood(ber, next, contentEnd, indefinite);
      }
    }
  }

  /** ber2der */
  function BerToDer(ber: seq<byte>): Result<seq<byte>> {
    if ber == [] then Err(Empty)
    else
      match ReadObject(ber, 0)
      case Err(e) => Err(e)
      case Ok(read) => Ok(Print(read.obj))
  }

  /** What ber2der prints is read as the same object, and all of it; so doing it twice is doing it once. */
  lemma BerToDerTwice(ber: seq<byte>)
    requires BerToDer(ber).Ok? && |BerToDer(ber).value| < TWO_31
    ensures var der := BerToDer(ber).value;
      ReadObject(der, 0) == Ok(Read(ReadObject(ber, 0).value.obj, |der|)) && BerToDer(der) == Ok(der)
  {
    hide ReadObject, Print, Good;
    var der := BerToDer(ber).value;
    ReadIsGood(ber, 0);
    var o := ReadObject(ber, 0).value.obj;
    assert der[0..0 + |der|] == der;
    PrintReads(o, der, 0);
  }

  /** Input that is well nested and has minimal definite lengths is the printed form of an object; ber2der leaves it as
      it is, and drops what follows it. */
  lemma BerToDerIdentity(o: Object, rest: seq<byte>)
    requires Good(o) && |Print(o)| < TWO_31
    ensures BerToDer(Print(o) + rest) == Ok(Print(o))
  {
    hide ReadObject, Good;
    var ber := Print(o) + rest;
    assert ber[0..0 + |Print(o)|] == Print(o);
    assert o.tag != [] by { GoodHasTag(o); }
    PrintReads(o, ber, 0);
  }

  lemma GoodHasTag(o: Object)
    requires Good(o)
    ensures o.tag != []
  {
  }

  /** An object of 2^31 bytes or more is printed with a length that is not accepted. */
  lemma TooLongIsRefused(ber: seq<byte>, offset: nat, n: nat)
    requires TWO_31 <= n < Pow256(5) && offset + |LengthBytes(n)| <= |ber|
    requires ber[offset..offset + |LengthBytes(n)|] == LengthBytes(n)
    ensures LengthAt(ber, offset).Err?
  {
    var s, t := LengthBytes(n), ToBytes(n);
    SliceTail(ber, offset, s);
    assert s[1..] == t;
    FromToBytes(n);
    ToBytesLength(n, 5);
    hide ToBytes;
    SliceTail(ber, offset + 1, t);
    if |t| <= 4 {
      SmallTop(t);
    }
  }

  lemma SmallTop(t: seq<byte>)
    requires 0 < |t| <= 4 && FromBytes(t) >= TWO_31
    ensures |t| == 4 && t[0] > 0x7F
  {
    assert t == [t[0]] + t[1..];
    ConcatBytes([t[0]], t[1..]);
    BytesBound(t[1..]);
    assert [t[0]][..0] == [];
    assert Pow256(0) == 1 && Pow256(1) == 256 && Pow256(2) == 65536 && Pow256(3) == 0x100_0000;
  }
}
