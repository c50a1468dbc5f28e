/** BER to DER with buffers and loops, as BerObjects defines it. */
module BerTranscoder {
  import opened Wrappers
  import opened Bytes
  import opened BerObjects

  type Result<T> = BerObjects.Result<T>

  /** bytes.Buffer */
  class Buffer {
    var data: seq<byte>

    constructor ()
      ensures data == []
    {
      data := [];
    }

    method Write(bytes: seq<byte>)
      modifies this
      ensures data == old(data) + bytes
    {
      data := data + bytes;
    }
  }

  method LengthLength(i0: nat) returns (numBytes: nat)
    ensures numBytes == if i0 == 0 then 1 else |ToBytes(i0)|
  {
    var i := i0;
    numBytes := 1;
    while i > 255
      invariant numBytes >= 1
      invariant numBytes - 1 + (if i == 0 then 1 else |ToBytes(i)|) == if i0 == 0 then 1 else |ToBytes(i0)|
    {
      numBytes := numBytes + 1;
      i := i / 256;
    }
    if i > 0 {
      assert ToBytes(i) == ToBytes(0) + [i];
    }
  }

  /** Byte number k of x, counted from the right. */
  function ByteAt(x: nat, k: nat): byte {
    if k == 0 then x % 256 else ByteAt(x / 256, k - 1)
  }

  lemma {:induction false} ToBytesAt(x: nat, k: nat)
    requires k < |ToBytes(x)|
    ensures ToBytes(x)[|ToBytes(x)| - 1 - k] == ByteAt(x, k)
  {
    if k > 0 {
      ToBytesAt(x / 256, k - 1);
    }
  }

  method MarshalLongLength(out: Buffer, i: nat)
    requires i > 0
    modifies out
    ensures out.data == old(out.data) + ToBytes(i)
  {
    var n := LengthLength(i);
    ghost var all := ToBytes(i);
    while n > 0
      invariant 0 <= n <= |all| && out.data == old(out.data) + all[..|all| - n]
    {
      ToBytesAt(i, n - 1);
      assert all[..|all| - n] + [all[|all| - n]] == all[..|all| - n + 1];
      out.Write([ByteAt(i, n - 1)]);
      n := n - 1;
    }
    assert all[..|all|] == all;
  }

  method EncodeLength(out: Buffer, length: nat)
    modifies out
    ensures out.data == old(out.data) + LengthBytes(length)
  {
    if length >= 128 {
      var l := LengthLength(length);
      out.Write([(0x80 + l) % 256]);
      MarshalLongLength(out, length);
    } else {
      out.Write([length]);
    }
  }

  method EncodeTo(o: Object, out: Buffer)
    modifies out
    ensures out.data == old(out.data) + Print(o)
    decreases o
  {
    match o
    case Structured(tag, content) =>
      var inner := new Buffer();
      for i := 0 to |content|
        invariant inner.data + PrintAll(content[i..]) == PrintAll(content) && fresh(inner) && inner != out
        invariant out.data == old(out.data)
      {
        assert content[i..][1..] == content[i + 1..];
        EncodeTo(content[i], inner);
      }
      out.Write(tag);
      EncodeLength(out, |inner.data|);
      out.Write(inner.data);
    case Primitive(tag, length, bytes) =>
      out.Write(tag);
      EncodeLength(out, length);
      out.Write(bytes);
  }

  /** readObject with its loops over length bytes and inner objects. */
  method ReadBer(ber: seq<byte>, offset0: nat) returns (r: Result<Read>)
    ensures r == ReadObject(ber, offset0)
    decreases |ber| - offset0, 0
  {
    hide TagEnd, SkipTag, LengthAt, Prepend;
    var tag := ReadTag(ber, offset0);
    if tag.Err? {
      return Err(tag.error);
    }
    var tagEnd := tag.value;
    var header := ReadLength(ber, tagEnd);
    if header.Err? {
      return Err(header.error);
    }
    var Length(indefinite, length, next) := header.value;
    var contentEnd := next + length;
    if contentEnd > |ber| {
      return Err(TooLittleData);
    }
    if !Constructed(ber[offset0]) {
      if indefinite {
        return Err(IndefinitePrimitive);
      }
      return Ok(Read(Primitive(ber[offset0..tagEnd], length, ber[next..contentEnd]), contentEnd));
    }
    var subObjects := ReadSubObjects(ber, next, contentEnd, indefinite);
    if subObjects.Err? {
      return Err(subObjects.error);
    }
    var ReadSubs(objects, end) := subObjects.value;
    return Ok(Read(Structured(ber[offset0..tagEnd], objects), if indefinite then end + 2 else contentEnd));
  }

  method ReadSubObjects(ber: seq<byte>, offset0: nat, contentEnd: nat, indefinite: bool) returns (r: Result<ReadSubs>)
    requires offset0 <= |ber|
    ensures r == ReadContent(ber, offset0, contentEnd, indefinite)
    decreases |ber| - offset0, 1
  {
    hide ReadObject, ReadContent, Prepend;
    var offset := offset0;
    var subObjects: seq<Object> := [];
    ghost var all := ReadContent(ber, offset0, contentEnd, indefinite);
    NothingBefore(all);
    while offset < contentEnd || indefinite
      invariant offset0 <= offset <= |ber|
        && all == Prepend(subObjects, ReadContent(ber, offset, contentEnd, indefinite))
      decreases |ber| - offset
    {
      ContentStep(ber, offset, contentEnd, indefinite, subObjects);
      var sub := ReadBer(ber, offset);
      if sub.Err? {
        return Err(sub.error);
      }
      offset := sub.value.end;
      subObjects := subObjects + [sub.value.obj];
      if indefinite {
        if |ber| - offset < 2 {
          return Err(InvalidFormat);
        }
        if ber[offset] == 0 && ber[offset + 1] == 0 {
          return Ok(ReadSubs(subObjects, offset));
        }
      }
    }
    ContentDone(ber, offset, contentEnd, subObjects);
    return Ok(ReadSubs(subObjects, offset));
  }

  method ReadTag(ber: seq<byte>, offset0: nat) returns (r: Result<nat>)
    ensures r == TagEnd(ber, offset0)
  {
    var offset := offset0;
    if offset >= |ber| {
      return Err(Panic);
    }
    var b := ber[offset];
    offset := offset + 1;
    if b % 32 == 31 {
      while offset < |ber| && ber[offset] >= 0x80
        invariant offset0 < offset <= |ber| && TagEnd(ber, offset0) == SkipTag(ber, offset)
      {
        offset := offset + 1;
      }
      if offset >= |ber| {
        return Err(Panic);
      }
      offset := offset + 1;
    }
    return Ok(offset);
  }

  method ReadLength(ber: seq<byte>, offset0: nat) returns (r: Result<Length>)
    ensures r == LengthAt(ber, offset0)
  {
    var offset := offset0;
    if offset >= |ber| {
      return Err(Panic);
    }
    var l := ber[offset];
    offset := offset + 1;
    if l > 0x80 {
      var numberOfBytes := l - 0x80;
      if numberOfBytes > 4 {
        return Err(LengthTooLong);
      }
      if offset >= |ber| {
        return Err(Panic);
      }
      if numberOfBytes == 4 && ber[offset] > 0x7F {
        return Err(NegativeLength);
      }
      if ber[offset] == 0 {
        return Err(LeadingZero);
      }
      var start := offset;
      var length: nat := 0;
      for i := 0 to numberOfBytes
        invariant start <= offset == start + i <= |ber| && length == FromBytes(ber[start..offset])
      {
        if offset >= |ber| {
          return Err(Panic);
        }
        assert ber[start..offset + 1][..i] == ber[start..offset];
        var c: int := ber[offset];
        length := length * 256 + c;
        offset := offset + 1;
      }
      return Ok(Length(false, length, offset));
    }
    return Ok(Length(l == 0x80, if l == 0x80 then 0 else l, offset));
  }

  lemma NothingBefore(r: Result<ReadSubs>)
    ensures Prepend([], r) == r
  {
    if r.Ok? {
      assert [] + r.value.objects == r.value.objects;
    }
  }

  /** One turn of the loop, in terms of what the whole loop reads. */
  lemma ContentStep(ber: seq<byte>, offset: nat, contentEnd: nat, indefinite: bool, before: seq<Object>)
    requires offset < contentEnd || indefinite
    ensures var all := Prepend(before, ReadContent(ber, offset, contentEnd, indefinite));
      match ReadObject(ber, offset)
      case Err(e) => all == Err(e)
      case Ok(Read(o, next)) =>
        if indefinite && |ber| - next < 2 then all == Err(InvalidFormat)
        else if indefinite && ber[next] == 0 && ber[next + 1] == 0 then all == Ok(ReadSubs(before + [o], next))
        else all == Prepend(before + [o], ReadContent(ber, next, contentEnd, indefinite))
  {
    hide ReadObject;
    if ReadObject(ber, offset).Ok? {
      var Read(o, next) := ReadObject(ber, offset).value;
      if ReadContent(ber, next, contentEnd, indefinite).Ok? {
        var more := ReadContent(ber, next, contentEnd, indefinite).value.objects;
        assert before + ([o] + more) == before + [o] + more;
      }
    }
  }

  lemma ContentDone(ber: seq<byte>, offset: nat, contentEnd: nat, before: seq<Object>)
    requires offset >= contentEnd
    ensures Prepend(before, ReadContent(ber, offset, contentEnd, false)) == Ok(ReadSubs(before, offset))
  {
    assert before + [] == before;
  }

  method Ber2Der(ber: seq<byte>) returns (r: Result<seq<byte>>)
    ensures r == BerToDer(ber)
  {
    hide ReadObject, Print;
    if |ber| == 0 {
      return Err(Empty);
    }
    var out := new Buffer();
    var read := ReadBer(ber, 0);
    if read.Err? {
      return Err(read.error);
    }
    EncodeTo(read.value.obj, out);
    assert [] + Print(read.value.obj) == Print(read.value.obj);
    return Ok(out.data);
  }
}
