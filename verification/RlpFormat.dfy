/** Recursive length prefix, as the Ethereum Yellow Paper, Appendix B, defines it: trees of byte strings and lists. */
module RlpFormat {
  import opened Wrappers
  import opened Bytes

  datatype Item = Str(bytes: seq<byte>) | List(items: seq<Item>)

  /** More bytes than a uint64 can count. */
  const TWO_64: int := 0x1_0000_0000_0000_0000

  function Octet(n: int): byte {
    n % 256
  }

  /** The header of a string or list of the given size. */
  function Head(smallTag: byte, largeTag: byte, size: nat): (h: seq<byte>)
    ensures |h| >= 1
  {
    if size < 56 then [Octet(smallTag + size)] else [Octet(largeTag + |ToBytes(size)|)] + ToBytes(size)
  }

  function StrHead(size: nat): (h: seq<byte>)
    ensures |h| >= 1
  {
    Head(0x80, 0xB7, size)
  }

  function ListHead(size: nat): (h: seq<byte>)
    ensures |h| >= 1
  {
    Head(0xC0, 0xF7, size)
  }

  function EncodeStr(s: seq<byte>): seq<byte> {
    if |s| == 1 && s[0] < 0x80 then s else StrHead(|s|) + s
  }

  function Encode(t: Item): (b: seq<byte>)
    ensures |b| > 0
    decreases t
  {
    match t
    case Str(s) => EncodeStr(s)
    case List(ts) => ListHead(|EncodeAll(ts)|) + EncodeAll(ts)
  }

  function EncodeAll(ts: seq<Item>): seq<byte>
    decreases ts
  {
    if ts == [] then [] else EncodeAll(ts[..|ts| - 1]) + Encode(ts[|ts| - 1])
  }

  lemma EncodeAllSnoc(ts: seq<Item>, t: Item)
    ensures EncodeAll(ts + [t]) == EncodeAll(ts) + Encode(t)
  {
    hide Encode;
    assert (ts + [t])[..|ts + [t]| - 1] == ts;
  }

  lemma Assoc(a: seq<byte>, b: seq<byte>, c: seq<byte>)
    ensures a + b + c == a + (b + c)
  {
  }

  lemma {:induction false} EncodeAllConcat(ts: seq<Item>, us: seq<Item>)
    ensures EncodeAll(ts + us) == EncodeAll(ts) + EncodeAll(us)
  {
    hide EncodeAll, Encode;
    if us == [] {
      assert ts + us == ts;
      EncodeNone();
    } else {
      var us', u := us[..|us| - 1], us[|us| - 1];
      EncodeAllConcat(ts, us');
      EncodeAllSnoc(ts + us', u);
      assert ts + us' + [u] == ts + us && us' + [u] == us;
      EncodeAllSnoc(us', u);
      Assoc(EncodeAll(ts), EncodeAll(us'), Encode(u));
    }
  }

  lemma EncodeNone()
    ensures EncodeAll([]) == []
  {
  }

  lemma EncodeAllFirst(ts: seq<Item>)
    requires ts != []
    ensures EncodeAll(ts) == Encode(ts[0]) + EncodeAll(ts[1..])
  {
    EncodeAllConcat(ts[..1], ts[1..]);
    assert ts == ts[..1] + ts[1..];
    assert ts[..1][..0] == [];
  }

  datatype Kind = Byte | String | List

  /** What the header of an encoded value says: tag bytes of header, then size bytes of content. A byte below 0x80 is
      taken to be all header. */
  datatype Header = Header(kind: Kind, tag: nat, size: nat)

  /** The header at the front of b, if there is one and its size is written canonically. */
  function HeaderOf(b: seq<byte>): (h: Option<Header>)
    ensures h.Some? ==> 1 <= h.value.tag <= |b| && h.value.tag <= 9
  {
    if b == [] then None
    else if b[0] < 0x80 then Some(Header(Byte, 1, 0))
    else if b[0] < 0xB8 then Some(Header(String, 1, b[0] - 0x80))
    else if b[0] < 0xC0 then LongHeader(String, b, b[0] - 0xB7)
    else if b[0] < 0xF8 then Some(Header(Kind.List, 1, b[0] - 0xC0))
    else LongHeader(Kind.List, b, b[0] - 0xF7)
  }

  function LongHeader(kind: Kind, b: seq<byte>, n: nat): (h: Option<Header>)
    requires b != [] && 0 < n <= 8
    ensures h.Some? ==> 1 <= h.value.tag <= |b| && h.value.tag <= 9
  {
    if |b| < 1 + n || b[1] == 0 || FromBytes(b[1..1 + n]) < 56 then None
    else Some(Header(kind, 1 + n, FromBytes(b[1..1 + n])))
  }

  ghost function HeadOf(t: Item): Header {
    match t
    case Str(s) => if |s| == 1 && s[0] < 0x80 then Header(Byte, 1, 0) else Header(String, |StrHead(|s|)|, |s|)
    case List(ts) => Header(Kind.List, |ListHead(|EncodeAll(ts)|)|, |EncodeAll(ts)|)
  }

  lemma LongHead(largeTag: byte, size: nat, kind: Kind, rest: seq<byte>)
    requires 56 <= size < TWO_64 && largeTag + 8 < 256
    ensures var b := Head(0, largeTag, size) + rest;
      1 <= |ToBytes(size)| <= 8 && b[0] == largeTag + |ToBytes(size)|
      && LongHeader(kind, b, |ToBytes(size)|) == Some(Header(kind, |Head(0, largeTag, size)|, size))
  {
    var n := |ToBytes(size)|;
    assert Pow256(8) == TWO_64;
    ToBytesLength(size, 8);
    FromToBytes(size);
    var b := Head(0, largeTag, size) + rest;
    assert b[1..1 + n] == ToBytes(size);
  }

  lemma HeaderOfStrHead(size: nat, rest: seq<byte>)
    requires size < TWO_64
    ensures HeaderOf(StrHead(size) + rest) == Some(Header(String, |StrHead(size)|, size))
  {
    if size >= 56 {
      LongHead(0xB7, size, String, rest);
    }
  }

  lemma HeaderOfByte(x: byte, b: seq<byte>)
    requires b != [] && b[0] == x < 0x80
    ensures HeaderOf(b) == Some(Header(Byte, 1, 0))
  {
  }

  lemma HeaderOfListHead(size: nat, rest: seq<byte>)
    requires size < TWO_64
    ensures HeaderOf(ListHead(size) + rest) == Some(Header(Kind.List, |ListHead(size)|, size))
  {
    if size >= 56 {
      LongHead(0xF7, size, Kind.List, rest);
    }
  }

  /** An encoded value starts with its own header. */
  lemma HeaderOfEncode(t: Item, rest: seq<byte>)
    requires |Encode(t)| <= TWO_64
    ensures HeaderOf(Encode(t) + rest) == Some(HeadOf(t))
  {
    hide HeaderOf, StrHead, ListHead;
    match t
    case Str(s) =>
      if |s| == 1 && s[0] < 0x80 {
        HeaderOfByte(s[0], Encode(t) + rest);
      } else {
        HeaderOfStrHead(|s|, s + rest);
        assert StrHead(|s|) + s + rest == StrHead(|s|) + (s + rest);
      }
    case List(ts) =>
      var c := EncodeAll(ts);
      HeaderOfListHead(|c|, c + rest);
      assert ListHead(|c|) + c + rest == ListHead(|c|) + (c + rest);
  }

  /** A canonical long header is the one the encoder writes. */
  lemma HeadFrom(b: seq<byte>, largeTag: byte, n: nat, kind: Kind)
    requires b != [] && 0 < n <= 8 && b[0] == largeTag + n && LongHeader(kind, b, n).Some?
    ensures b[..1 + n] == Head(0, largeTag, LongHeader(kind, b, n).value.size)
  {
    ToFromBytes(b[1..1 + n]);
    assert b[..1 + n] == [b[0]] + b[1..1 + n];
  }

  /** An accepted header is the one the encoder writes. */
  lemma HeaderIsHead(b: seq<byte>)
    requires HeaderOf(b).Some? && HeaderOf(b).value.kind != Byte
    ensures var h := HeaderOf(b).value;
      b[..h.tag] == if h.kind == String then StrHead(h.size) else ListHead(h.size)
  {
    if 0xB8 <= b[0] < 0xC0 {
      HeadFrom(b, 0xB7, b[0] - 0xB7, String);
    } else if 0xF8 <= b[0] {
      HeadFrom(b, 0xF7, b[0] - 0xF7, Kind.List);
    }
  }

  ghost predicate StartsWith(w: seq<byte>, t: Item) {
    |Encode(t)| <= |w| && w[..|Encode(t)|] == Encode(t)
  }

  /** No value is encoded at the front of w. */
  ghost predicate NoItem(w: seq<byte>) {
    forall t: Item :: !StartsWith(w, t)
  }

  /** What header and content tell about the value in front of w. */
  lemma StartsWithHeader(w: seq<byte>, t: Item)
    requires StartsWith(w, t) && |w| < TWO_64
    ensures HeaderOf(w) == Some(HeadOf(t)) && HeadOf(t).tag + HeadOf(t).size == |Encode(t)|
    ensures var content := w[HeadOf(t).tag..|Encode(t)|];
      match HeadOf(t).kind
      case Byte => t == Str([w[0]])
      case String => t == Str(content) && !(|content| == 1 && content[0] < 0x80)
      case List => t.List? && content == EncodeAll(t.items)
  {
    HeaderOfEncode(t, w[|Encode(t)|..]);
    assert w == Encode(t) + w[|Encode(t)|..];
    var h := HeadOf(t);
    assert w[h.tag..|Encode(t)|] == Encode(t)[h.tag..];
    if h.kind == Byte {
      assert t.bytes == [w[0]];
    }
  }

  lemma NoHeaderNoItem(w: seq<byte>)
    requires |w| < TWO_64
    requires match HeaderOf(w)
      case None => true
      case Some(h) => h.tag + h.size > |w| || (h.kind == String && h.size == 1 && w[h.tag] < 0x80)
    ensures NoItem(w)
  {
    forall t: Item ensures !StartsWith(w, t) {
      if StartsWith(w, t) {
        StartsWithHeader(w, t);
      }
    }
  }

  /** The string whose header is at the front of w. */
  lemma StringItem(w: seq<byte>)
    requires HeaderOf(w).Some?
    requires var h := HeaderOf(w).value;
      h.kind == String && h.tag + h.size <= |w| && !(h.size == 1 && w[h.tag] < 0x80)
    ensures var h := HeaderOf(w).value;
      w[..h.tag + h.size] == EncodeStr(w[h.tag..h.tag + h.size])
  {
    var h := HeaderOf(w).value;
    HeaderIsHead(w);
    assert w[..h.tag + h.size] == w[..h.tag] + w[h.tag..h.tag + h.size];
  }

  lemma ByteItem(w: seq<byte>)
    requires HeaderOf(w).Some? && HeaderOf(w).value.kind == Byte
    ensures w[..1] == EncodeStr([w[0]])
  {
  }

  /** The list whose header is at the front of w is there exactly if its content is a sequence of encoded values. */
  lemma ListItem(w: seq<byte>, ts: seq<Item>)
    requires |w| < TWO_64 && HeaderOf(w).Some?
    requires HeaderOf(w).value.kind == Kind.List && HeaderOf(w).value.tag + HeaderOf(w).value.size <= |w|
    ensures var h := HeaderOf(w).value;
      w[h.tag..h.tag + h.size] == EncodeAll(ts) <==> StartsWith(w, Item.List(ts))
    ensures var h := HeaderOf(w).value;
      w[h.tag..h.tag + h.size] == EncodeAll(ts) ==> w[..h.tag + h.size] == Encode(Item.List(ts))
  {
    var h := HeaderOf(w).value;
    HeaderIsHead(w);
    assert w[..h.tag + h.size] == w[..h.tag] + w[h.tag..h.tag + h.size];
    if StartsWith(w, Item.List(ts)) {
      StartsWithHeader(w, Item.List(ts));
    }
  }

  /** The code is prefix-free: at most one value is encoded at the front of a byte string. */
  lemma {:induction false} PrefixFree(w: seq<byte>, t: Item, u: Item)
    requires StartsWith(w, t) && StartsWith(w, u) && |w| < TWO_64
    ensures t == u
    decreases t
  {
    StartsWithHeader(w, t);
    StartsWithHeader(w, u);
    if HeadOf(t).kind == Kind.List {
      assert |EncodeAll(t.items)| < TWO_64;
      AllInjective(t.items, u.items);
    }
  }

  lemma {:induction false} AllInjective(ts: seq<Item>, us: seq<Item>)
    requires EncodeAll(ts) == EncodeAll(us) && |EncodeAll(ts)| < TWO_64
    ensures ts == us
    decreases ts
  {
    if ts != [] {
      EncodeAllFirst(ts);
      if us != [] {
        EncodeAllFirst(us);
        FirstOf(ts);
        FirstOf(us);
        PrefixFree(EncodeAll(ts), ts[0], us[0]);
        assert EncodeAll(ts[1..]) == EncodeAll(ts)[|Encode(ts[0])|..];
        AllInjective(ts[1..], us[1..]);
        assert ts == [ts[0]] + ts[1..] && us == [us[0]] + us[1..];
      }
    } else if us != [] {
      EncodeAllFirst(us);
    }
  }

  lemma FirstOf(ts: seq<Item>)
    requires ts != []
    ensures StartsWith(EncodeAll(ts), ts[0])
  {
    EncodeAllFirst(ts);
  }

  /** Each value has one encoding, and no two values share it. */
  lemma EncodeInjective(t: Item, u: Item)
    requires Encode(t) == Encode(u) && |Encode(t)| < TWO_64
    ensures t == u
  {
    PrefixFree(Encode(t), t, u);
  }

  /** A sequence of encoded values determines its members one by one from the front. */
  lemma {:induction false} AllPrefix(items: seq<Item>, w: seq<byte>, ts: seq<Item>)
    requires EncodeAll(items) + w == EncodeAll(ts) && |EncodeAll(ts)| < TWO_64
    ensures |items| <= |ts| && w == EncodeAll(ts[|items|..])
  {
    if items == [] {
      assert ts[0..] == ts;
    } else {
      EncodeAllFirst(items);
      var first := Encode(items[0]);
      assert EncodeAll(ts)[..|first|] == first;
      if ts != [] {
        FirstOf(ts);
        EncodeAllFirst(ts);
        PrefixFree(EncodeAll(ts), items[0], ts[0]);
        assert EncodeAll(items[1..]) + w == EncodeAll(ts)[|first|..];
        AllPrefix(items[1..], w, ts[1..]);
        assert ts[1..][|items[1..]|..] == ts[|items|..];
      }
    }
  }

  /** If after some values comes something that is no value, the whole is no sequence of values. */
  lemma NoSequence(items: seq<Item>, w: seq<byte>, ts: seq<Item>)
    requires w != [] && NoItem(w) && |EncodeAll(items) + w| < TWO_64
    ensures EncodeAll(items) + w != EncodeAll(ts)
  {
    if EncodeAll(items) + w == EncodeAll(ts) {
      AllPrefix(items, w, ts);
      var us := ts[|items|..];
      FirstOf(us);
    }
  }
}
