/** raw.go: taking encoded values off a byte slice without decoding them. */
module RlpRaw {
  import opened Wrappers
  import opened Bytes
  import opened RlpFormat

  type Result<T> = Wrappers.Result<T, Error>

  datatype Error = UnexpectedEOF | CanonSize | ValueTooLarge | ExpectedString | ExpectedList

  datatype Tag = Tag(kind: Kind, tagsize: nat, contentsize: nat)

  datatype Parts = Parts(kind: Kind, content: seq<byte>, rest: seq<byte>)

  /** readSize: the big-endian size in the first slen bytes. */
  function ReadSize(b: seq<byte>, slen: nat): Result<nat>
    requires 1 <= slen <= 8
  {
    if slen > |b| then Err(UnexpectedEOF)
    else
      var s := FromBytes(b[..slen]);
      if s < 56 || b[0] == 0 then Err(CanonSize) else Ok(s)
  }

  function SizedTag(kind: Kind, buf: seq<byte>, slen: nat): Result<Tag>
    requires buf != [] && 1 <= slen <= 8
  {
    match ReadSize(buf[1..], slen)
    case Err(e) => Err(e)
    case Ok(size) => Ok(Tag(kind, slen + 1, size))
  }

  /** The switch of readKind. */
  function TagOf(buf: seq<byte>): (r: Result<Tag>)
    requires buf != []
    ensures r.Ok? ==> r.value.tagsize <= |buf| && r.value.tagsize + r.value.contentsize > 0
  {
    var b := buf[0];
    if b < 0x80 then Ok(Tag(Byte, 0, 1))
    else if b < 0xB8 then
      if b - 0x80 == 1 && |buf| > 1 && buf[1] < 128 then Err(CanonSize) else Ok(Tag(String, 1, b - 0x80))
    else if b < 0xC0 then SizedTag(String, buf, b - 0xB7)
    else if b < 0xF8 then Ok(Tag(Kind.List, 1, b - 0xC0))
    else SizedTag(Kind.List, buf, b - 0xF7)
  }

  function ReadKind(buf: seq<byte>): (r: Result<Tag>)
    ensures r.Ok? ==> 0 < r.value.tagsize + r.value.contentsize <= |buf|
  {
    if buf == [] then Err(UnexpectedEOF)
    else
      match TagOf(buf)
      case Err(e) => Err(e)
      case Ok(tag) =>
        var room: nat := |buf| - tag.tagsize;
        if tag.contentsize > room then Err(ValueTooLarge) else Ok(tag)
  }

  function Split(b: seq<byte>): Result<Parts> {
    match ReadKind(b)
    case Err(e) => Err(e)
    case Ok(Tag(k, ts, cs)) => Ok(Parts(k, b[ts..ts + cs], b[ts + cs..]))
  }

  function SplitString(b: seq<byte>): Result<Parts> {
    match Split(b)
    case Err(e) => Err(e)
    case Ok(parts) => if parts.kind == Kind.List then Err(ExpectedString) else Ok(parts)
  }

  function SplitList(b: seq<byte>): Result<Parts> {
    match Split(b)
    case Err(e) => Err(e)
    case Ok(parts) => if parts.kind != Kind.List then Err(ExpectedList) else Ok(parts)
  }

  /** readKind accepts what the format's header describes, except that it also looks at the content of one-byte
      strings. */
  lemma ReadKindIsHeader(b: seq<byte>)
    ensures var h := HeaderOf(b);
      ReadKind(b).Ok? <==>
        h.Some? && h.value.tag + h.value.size <= |b|
        && !(h.value.kind == String && h.value.size == 1 && b[h.value.tag] < 0x80)
    ensures ReadKind(b).Ok? ==>
      var h, t := HeaderOf(b).value, ReadKind(b).value;
      t.kind == h.kind && t.tagsize + t.contentsize == h.tag + h.size
      && t.tagsize == if h.kind == Byte then 0 else h.tag
  {
    if b != [] && 0xB8 <= b[0] < 0xC0 {
      var n := b[0] - 0xB7;
      LongSize(b, n);
    } else if b != [] && 0xF8 <= b[0] {
      LongSize(b, b[0] - 0xF7);
    }
  }

  lemma LongSize(b: seq<byte>, n: nat)
    requires b != [] && n > 0
    ensures n <= |b| - 1 ==> b[1..][..n] == b[1..1 + n] && b[1..][0] == b[1]
  {
  }

  lemma ByteTag(b: seq<byte>)
    requires HeaderOf(b).Some? && HeaderOf(b).value.kind == Byte
    ensures HeaderOf(b).value.tag == 1 && HeaderOf(b).value.size == 0
  {
  }

  /** SplitString takes off the encoding of a string, and nothing else passes. */
  lemma SplitStringIsEncode(b: seq<byte>)
    requires |b| < TWO_64
    ensures SplitString(b).Ok? ==> b == EncodeStr(SplitString(b).value.content) + SplitString(b).value.rest
    ensures SplitString(b).Err? ==> forall s: seq<byte> :: !StartsWith(b, Str(s))
  {
    hide HeaderOf, ReadKind, EncodeStr, StrHead, Encode;
    ReadKindIsHeader(b);
    if SplitString(b).Ok? {
      var h := HeaderOf(b).value;
      if h.kind == Byte {
        ByteItem(b);
        ByteTag(b);
        assert b[0..1] == [b[0]] == b[..1];
      } else {
        StringItem(b);
      }
    } else {
      forall s: seq<byte> ensures !StartsWith(b, Str(s)) {
        if StartsWith(b, Str(s)) {
          StartsWithHeader(b, Str(s));
        }
      }
    }
  }

  /** The header of a list, whatever its content is. */
  lemma HeaderOfList(content: seq<byte>, rest: seq<byte>)
    requires |content| < TWO_64
    ensures HeaderOf(RlpFormat.ListHead(|content|) + content + rest)
      == Some(Header(Kind.List, |RlpFormat.ListHead(|content|)|, |content|))
  {
    assert RlpFormat.ListHead(|content|) + content + rest == RlpFormat.ListHead(|content|) + (content + rest);
    HeaderOfListHead(|content|, content + rest);
  }

  /** SplitList takes off a list header with its content, whatever the content is. */
  lemma SplitListIsHead(b: seq<byte>, content: seq<byte>, rest: seq<byte>)
    requires |b| < TWO_64
    ensures SplitList(b) == Ok(Parts(Kind.List, content, rest)) <==> b == RlpFormat.ListHead(|content|) + content + rest
  {
    hide HeaderOf, RlpFormat.ListHead, RlpFormat.StrHead, ReadKind;
    ReadKindIsHeader(b);
    if SplitList(b) == Ok(Parts(Kind.List, content, rest)) {
      HeaderIsHead(b);
      var h := HeaderOf(b).value;
      assert b == b[..h.tag] + b[h.tag..h.tag + h.size] + b[h.tag + h.size..];
    }
    if b == RlpFormat.ListHead(|content|) + content + rest {
      HeaderOfList(content, rest);
    }
  }

  /** Taking off a value of any kind. */
  lemma SplitOfEncode(t: Item, rest: seq<byte>)
    requires |Encode(t) + rest| < TWO_64
    ensures Split(Encode(t) + rest).Ok? && Split(Encode(t) + rest).value.rest == rest
  {
    var b := Encode(t) + rest;
    ReadKindIsHeader(b);
    assert StartsWith(b, t);
    StartsWithHeader(b, t);
    assert b[|Encode(t)|..] == rest;
  }

  /** How many values readKind can take off b one after the other, or the error of the first that it cannot. */
  function Count(b: seq<byte>): Result<nat>
    decreases |b|
  {
    if b == [] then Ok(0)
    else
      match ReadKind(b)
      case Err(e) => Err(e)
      case Ok(tag) =>
        match Count(b[tag.tagsize + tag.contentsize..])
        case Err(e) => Err(e)
        case Ok(n) => Ok(n + 1)
  }

  method CountValues(b0: seq<byte>) returns (r: Result<nat>)
    ensures r == Count(b0)
  {
    var b := b0;
    var i := 0;
    while b != []
      invariant Count(b0) == if Count(b).Ok? then Ok(Count(b).value + i) else Count(b)
      decreases |b|
    {
      var tag := ReadKind(b);
      if tag.Err? {
        return Err(tag.error);
      }
      b := b[tag.value.tagsize + tag.value.contentsize..];
      i := i + 1;
    }
    return Ok(i);
  }

  /** On the content of an encoded list CountValues gives the number of its members. */
  lemma {:induction false} CountOfSequence(ts: seq<Item>)
    requires |EncodeAll(ts)| < TWO_64
    ensures Count(EncodeAll(ts)) == Ok(|ts|)
  {
    if ts != [] {
      var b := EncodeAll(ts);
      EncodeAllFirst(ts);
      SplitOfEncode(ts[0], EncodeAll(ts[1..]));
      CountOfSequence(ts[1..]);
    }
  }
}
