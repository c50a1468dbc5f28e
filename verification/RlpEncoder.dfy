/** encbuf: list headers are kept apart from the data and put in at the end, when the sizes of the lists are known. */
module RlpEncoder {
  import opened Wrappers
  import opened Bytes
  import opened RlpFormat
  import opened RlpSizes
  import opened RlpBuffers

  class Listhead {
    var offset: nat
    /** While the list is open, the size of all headers finished before it; then the size of the list's content. */
    var size: nat

    constructor (offset: nat, size: nat)
      ensures this.offset == offset && this.size == size
    {
      this.offset, this.size := offset, size;
    }
  }

  class EncBuf {
    var str: seq<byte>
    var lheads: seq<Listhead>
    var lhsize: nat
    ghost var open: seq<nat>

    ghost function Head(i: nat): HeadVal
      requires i < |lheads|
      reads this, lheads
    {
      HeadVal(lheads[i].offset, lheads[i].size)
    }

    ghost function View(): Buffer
      reads this, lheads
    {
      Buffer(str, seq(|lheads|, i requires 0 <= i < |lheads| reads this, lheads => Head(i)), open)
    }

    ghost predicate Valid()
      reads this, lheads
    {
      && (forall i, j :: 0 <= i < j < |lheads| ==> lheads[i] != lheads[j])
      && (forall i :: 0 <= i < |lheads| ==> lheads[i].size < TWO_64)
      && Good(View()) && lhsize == Closed(View(), |lheads|)
    }

    /** What has been written to each open list, outermost level first. */
    ghost function Contents(): seq<seq<byte>>
      requires Valid()
      reads this, lheads
    {
      Levels(View())
    }

    constructor ()
      ensures Valid() && Contents() == [[]] && lheads == [] && open == [] && Size() == 0
    {
      str, lheads, lhsize, open := [], [], 0, [];
      new;
      assert View() == Buffer([], [], []);
      WholeBuffer(View());
    }

    function Size(): nat
      reads this
    {
      |str| + lhsize
    }

    method Append(b: seq<byte>)
      requires Valid()
      modifies this`str
      ensures Valid() && Contents() == Extend(old(Contents()), b) && open == old(open) && Size() == old(Size()) + |b|
    {
      hide Good, Closed, Levels;
      AppendGood(View(), b);
      ghost var was := View();
      str := str + b;
      assert View() == Appended(was, b);
    }

    method List() returns (lh: Listhead)
      requires Valid() && Size() < TWO_64
      modifies this
      ensures Valid() && Contents() == old(Contents()) + [[]] && Size() == old(Size())
      ensures fresh(lh) && lheads == old(lheads) + [lh] && open == old(open) + [|old(lheads)|]
    {
      hide Good, Closed, Levels;
      OpenGood(View());
      ghost var was := View();
      lh := new Listhead(|str|, lhsize);
      lheads := lheads + [lh];
      open := open + [|lheads| - 1];
      assert View() == Opened(was);
    }

    /** Ends the innermost open list, whose header is lh. */
    method ListEnd(lh: Listhead)
      requires Valid() && open != [] && lheads[open[|open| - 1]] == lh && Size() < TWO_64
      modifies this`lhsize, this`open, lh
      ensures Valid() && lheads == old(lheads) && open == old(open[..|open| - 1])
      ensures var ls := old(Contents());
        Contents() == Extend(ls[..|ls| - 1], ListHead(|ls[|ls| - 1]|) + ls[|ls| - 1])
        && Size() == old(Size()) + |ListHead(|ls[|ls| - 1]|)|
    {
      hide Good, Closed, Levels, ListHead;
      ghost var was := View();
      EndGood(was);
      var size := Size() - lh.offset - lh.size;
      lh.size := size;
      var n := HeadSize(size);
      lhsize := lhsize + n;
      open := open[..|open| - 1];
      assert View() == Ended(was, size);
    }

    /** The content of b as a string, a single byte below 0x80 without header. */
    method EncodeString(b: seq<byte>)
      requires Valid() && |b| < TWO_64
      modifies this`str
      ensures Valid() && Contents() == Extend(old(Contents()), Encode(Str(b))) && open == old(open)
      ensures Size() == old(Size()) + |Encode(Str(b))|
    {
      hide Levels;
      if |b| == 1 && b[0] <= 0x7F {
        Append([b[0]]);
        assert b == [b[0]];
      } else {
        ExtendTwice(Contents(), StrHead(|b|), b);
        Append(PutHead(0x80, 0xB7, |b|));
        Append(b);
      }
    }

    /** writeUint: zero as the empty string, and no leading zero bytes. */
    method WriteUint(i: nat)
      requires Valid() && i < TWO_64
      modifies this`str
      ensures Valid() && Contents() == Extend(old(Contents()), Encode(Str(ToBytes(i)))) && open == old(open)
    {
      hide Levels, Encode, PutInt;
      UintEncoding(i);
      if i == 0 {
        Append([0x80]);
      } else if i < 128 {
        Append([i]);
      } else {
        Append([Octet(0x80 + |PutInt(i)|)] + PutInt(i));
      }
    }

    ghost function HeadSet(): set<Listhead>
      reads this
    {
      set h <- lheads
    }

    /** The writers of byte slices and of slices of interface values. */
    method WriteItem(t: Item)
      requires Valid() && Size() + |Encode(t)| < TWO_64
      modifies this, HeadSet()
      ensures Wrote(old(Contents()), old(Size()), Encode(t), old(open), old(lheads))
      ensures fresh(HeadSet() - old(HeadSet()))
      decreases t, 1
    {
      match t
      case Str(b) =>
        EncodeString(b);
      case List(ts) =>
        WriteSlice(ts);
    }

    method WriteSlice(ts: seq<Item>)
      requires Valid() && Size() + |Encode(Item.List(ts))| < TWO_64
      modifies this, HeadSet()
      ensures Wrote(old(Contents()), old(Size()), Encode(Item.List(ts)), old(open), old(lheads))
      ensures fresh(HeadSet() - old(HeadSet()))
      decreases ts, 0
    {
      EncodeList(ts);
      hide Good, Closed, Levels, ListHead, Encode, EncodeAll, Valid, Contents;
      ghost var ls, size, marks, heads := Contents(), Size(), open, lheads;
      var lh := List();
      NothingWritten(ts);
      for i := 0 to |ts|
        invariant WroteElems(ls, size, EncodeAll(ts[..i]), marks, heads, lh)
        invariant fresh(HeadSet() - old(HeadSet()))
      {
        EncodeSoFar(ts, i);
        WriteItem(ts[i]);
        ExtendTop(ls, ts, i);
      }
      assert ts[..|ts|] == ts;
      ListEnd(lh);
      EndTop(ls, EncodeAll(ts));
    }

    /** The list headers as they stand. */
    function Heads(): (hs: seq<HeadVal>)
      requires Valid()
      reads this, lheads
      ensures hs == View().hs && forall h <- hs :: h.size < TWO_64
    {
      seq(|lheads|, i requires 0 <= i < |lheads| reads this, lheads => HeadVal(lheads[i].offset, lheads[i].size))
    }

    /** Everything written, with the list headers put in. No list may be open. */
    method AsBytes() returns (out: array<byte>)
      requires Valid() && open == []
      ensures fresh(out) && Contents() == [out[..]] && out.Length == Size()
    {
      hide Good, Closed, Levels;
      out := Assemble(str, Heads(), Size(), View());
    }

    /** The buffer after writing more to the innermost open list. */
    ghost predicate Wrote(ls: seq<seq<byte>>, size: nat, more: seq<byte>, marks: seq<nat>, heads: seq<Listhead>)
      requires ls != []
      reads this, lheads
    {
      Valid() && Contents() == Extend(ls, more) && Size() == size + |more| && open == marks && heads <= lheads
    }

    /** The buffer after opening a list with header lh and writing the given content to it. */
    ghost predicate WroteElems(ls: seq<seq<byte>>, size: nat, content: seq<byte>, marks: seq<nat>, heads: seq<Listhead>,
        lh: Listhead)
      reads this, lheads
    {
      && Valid() && Contents() == ls + [content] && Size() == size + |content|
      && open == marks + [|heads|] && heads + [lh] <= lheads
    }
  }

  lemma UintEncoding(i: nat)
    requires i < TWO_64
    ensures Encode(Str(ToBytes(i))) == if i == 0 then [0x80] else if i < 128 then [i]
      else [Octet(0x80 + |PutInt(i)|)] + PutInt(i)
  {
    if i == 0 {
      assert Encode(Str([])) == [0x80];
    } else if i < 128 {
      assert ToBytes(i) == ToBytes(0) + [i] == [i];
    } else {
      PutIntIsShortest(i);
      assert Pow256(8) == TWO_64;
      ToBytesLength(i, 8);
      assert ToBytes(i) == ToBytes(i / 256) + [i % 256];
      hide PutInt, ToBytes;
    }
  }

  /** The loop of toBytes. */
  method Assemble(str: seq<byte>, heads: seq<HeadVal>, size: nat, ghost b: Buffer) returns (out: array<byte>)
    requires Good(b) && b.open == [] && str == b.str && heads == b.hs && size == |str| + Closed(b, |heads|)
    requires forall h <- heads :: h.size < TWO_64
    ensures fresh(out) && Levels(b) == [out[..]] && out.Length == size
  {
    hide Within, Render, Good, Closed, HeadSizes, Levels, Head, Cut, Before, After, Progress, Overwritten, Render;
    WholeBuffer(b);
    out := new byte[size];
    NoProgress(b, out[..]);
    var strpos: nat, pos: nat := 0, 0;
    for i := 0 to |heads|
      invariant Progress(b, i, strpos, pos, out[..])
    {
      ghost var was := out[..];
      DataFits(b, i, strpos, pos, was);
      var n := Copy(out, pos, str[strpos..heads[i].offset]);
      NextData(b, i, strpos, pos, was, out[..]);
      pos, strpos := pos + n, strpos + n;
      was := out[..];
      HeadFits(b, i, strpos, pos, was);
      n := Copy(out, pos, PutHead(0xC0, 0xF7, heads[i].size));
      NextHead(b, i, strpos, pos, was, out[..]);
      pos := pos + n;
    }
    DataFits(b, |heads|, strpos, pos, out[..]);
    ghost var was := out[..];
    assert str[strpos..] == str[strpos..|str|];
    var n := Copy(out, pos, str[strpos..]);
    NextData(b, |heads|, strpos, pos, was, out[..]);
    AllAssembled(b, pos + n, out[..]);
  }

  lemma AllAssembled(b: Buffer, pos: nat, out: seq<byte>)
    requires Progress(b, |b.hs|, |b.str|, pos, out)
    ensures Levels(b) == [out]
  {
    hide Render, Closed, Within;
    WholeBuffer(b);
    CutEnd(b.str, b.hs);
    assert out[..pos] == out;
  }

  /** copy into the tail of a buffer that is long enough. */
  method Copy(out: array<byte>, pos: nat, data: seq<byte>) returns (n: nat)
    requires pos + |data| <= out.Length
    modifies out
    ensures n == |data| && out[..] == Overwritten(old(out[..]), pos, data)
  {
    n := |data|;
    forall i | 0 <= i < n {
      out[pos + i] := data[i];
    }
  }

  ghost function Overwritten(out: seq<byte>, pos: nat, data: seq<byte>): seq<byte>
    requires pos + |data| <= |out|
  {
    out[..pos] + data + out[pos + |data|..]
  }

  /** The first i headers and the data up to strpos have been copied to the first pos bytes. */
  ghost predicate Progress(b: Buffer, i: nat, strpos: nat, pos: nat, out: seq<byte>) {
    && Good(b) && b.open == [] && Cut(b.str, b.hs, i, strpos) && |out| == |b.str| + Closed(b, |b.hs|)
    && pos == |Before(b.str, b.hs, i, strpos)| && pos <= |out| && out[..pos] == Before(b.str, b.hs, i, strpos)
  }

  lemma NoProgress(b: Buffer, out: seq<byte>)
    requires Good(b) && b.open == [] && |out| == |b.str| + Closed(b, |b.hs|)
    ensures Progress(b, 0, 0, 0, out)
  {
    CutStart(b.str, b.hs);
  }

  lemma DataFits(b: Buffer, i: nat, strpos: nat, pos: nat, out: seq<byte>)
    requires Progress(b, i, strpos, pos, out)
    ensures var end := if i < |b.hs| then b.hs[i].offset else |b.str|;
      strpos <= end <= |b.str| && pos + (end - strpos) <= |out|
  {
    var end := if i < |b.hs| then b.hs[i].offset else |b.str|;
    CutData(b.str, b.hs, i, strpos);
    hide Good, Closed, Before, After;
    WholeBuffer(b);
    CutLength(b.str, b.hs, i, end);
    BeforeAll(b, i, end);
  }

  lemma BeforeAll(b: Buffer, i: nat, to: nat)
    requires Good(b) && b.open == [] && Cut(b.str, b.hs, i, to)
    ensures |Before(b.str, b.hs, i, to)| <= |b.str| + Closed(b, |b.hs|)
  {
    hide Closed, Render;
    WholeBuffer(b);
    assert |After(b.str, b.hs, i, to)| >= 0;
  }

  lemma NextData(b: Buffer, i: nat, strpos: nat, pos: nat, out: seq<byte>, out': seq<byte>)
    requires Progress(b, i, strpos, pos, out)
    requires var end := if i < |b.hs| then b.hs[i].offset else |b.str|;
      strpos <= end <= |b.str| && pos + (end - strpos) <= |out| && out' == Overwritten(out, pos, b.str[strpos..end])
    ensures var end := if i < |b.hs| then b.hs[i].offset else |b.str|;
      Progress(b, i, end, pos + (end - strpos), out')
  {
    hide Good, Closed, Before, After;
    CutData(b.str, b.hs, i, strpos);
  }

  lemma HeadFits(b: Buffer, i: nat, strpos: nat, pos: nat, out: seq<byte>)
    requires i < |b.hs| && strpos == b.hs[i].offset && Progress(b, i, strpos, pos, out)
    ensures pos + |ListHead(b.hs[i].size)| <= |out|
  {
    hide Good, Closed, Before, After, ListHead;
    CutHead(b.str, b.hs, i);
    BeforeAll(b, i + 1, strpos);
  }

  lemma NextHead(b: Buffer, i: nat, strpos: nat, pos: nat, out: seq<byte>, out': seq<byte>)
    requires i < |b.hs| && strpos == b.hs[i].offset && Progress(b, i, strpos, pos, out)
    requires pos + |ListHead(b.hs[i].size)| <= |out| && out' == Overwritten(out, pos, ListHead(b.hs[i].size))
    ensures Progress(b, i + 1, strpos, pos + |ListHead(b.hs[i].size)|, out')
  {
    hide Good, Closed, Before, After, ListHead;
    CutHead(b.str, b.hs, i);
  }

  lemma NothingWritten(ts: seq<Item>)
    ensures EncodeAll(ts[..0]) == []
  {
  }

  lemma ExtendTwice(ls: seq<seq<byte>>, a: seq<byte>, b: seq<byte>)
    requires ls != []
    ensures Extend(Extend(ls, a), b) == Extend(ls, a + b)
  {
    assert ls[|ls| - 1] + a + b == ls[|ls| - 1] + (a + b);
  }

  lemma EncodeList(ts: seq<Item>)
    ensures Encode(Item.List(ts)) == ListHead(|EncodeAll(ts)|) + EncodeAll(ts)
  {
  }

  lemma EncodeSoFar(ts: seq<Item>, i: nat)
    requires i < |ts|
    ensures |EncodeAll(ts[..i])| + |Encode(ts[i])| <= |EncodeAll(ts)|
  {
    EncodeAllConcat(ts[..i], ts[i..]);
    EncodeAllFirst(ts[i..]);
    assert ts == ts[..i] + ts[i..];
  }

  lemma ExtendTop(ls: seq<seq<byte>>, ts: seq<Item>, i: nat)
    requires i < |ts|
    ensures Extend(ls + [EncodeAll(ts[..i])], Encode(ts[i])) == ls + [EncodeAll(ts[..i + 1])]
    ensures |EncodeAll(ts[..i + 1])| == |EncodeAll(ts[..i])| + |Encode(ts[i])|
  {
    assert ts[..i + 1][..i] == ts[..i];
  }

  lemma EndTop(ls: seq<seq<byte>>, content: seq<byte>)
    ensures var all := ls + [content];
      all[..|all| - 1] == ls && all[|all| - 1] == content
  {
  }

  /** The recursive definition of the encoding and the buffer with its deferred headers give the same bytes. */
  method EncodeToBytes(t: Item) returns (out: array<byte>)
    requires |Encode(t)| < TWO_64
    ensures out[..] == Encode(t)
  {
    hide Good, Levels, Encode;
    var w := new EncBuf();
    w.WriteItem(t);
    out := w.AsBytes();
    assert Extend([[]], Encode(t)) == [[] + Encode(t)];
  }

  /** What EncodeToReader returns: the encoding in pieces, without ever putting it together. The buffer belongs to the
      reader and is no longer written, so it is held by value. */
  class EncReader {
    const str: seq<byte>
    const heads: seq<HeadVal>
    /** At the end of the encoding the buffer has been given up. */
    var released: bool
    var lhpos: nat
    var strpos: nat
    var piece: Option<seq<byte>>

    ghost predicate Valid()
      reads this
    {
      && Cut(str, heads, lhpos, strpos)
      && (forall h <- heads :: h.size < TWO_64)
      && (released ==> piece.None?)
      && (piece.Some? ==> piece.value != [])
    }

    /** What has still to be read. */
    ghost function Rest(): seq<byte>
      requires Valid()
      reads this
    {
      (if piece.Some? then piece.value else []) + if released then [] else After(str, heads, lhpos, strpos)
    }

    constructor (buf: EncBuf)
      requires buf.Valid() && buf.open == []
      ensures Valid() && [Rest()] == buf.Contents() && !released
    {
      str := buf.str;
      heads := buf.Heads();
      released, lhpos, strpos, piece := false, 0, 0, None;
      new;
      CutStart(str, heads);
      WholeBuffer(buf.View());
    }

    /** The next piece, which stays the reader's piece until it has been copied; None at the end. */
    method Next() returns (p: Option<seq<byte>>)
      requires Valid()
      modifies this`lhpos, this`strpos
      ensures Valid()
      ensures if piece.Some? then p == piece && Rest() == old(Rest())
        else if p.Some? then !released && p.value != [] && old(Rest()) == p.value + Rest()
        else Rest() == old(Rest()) == []
    {
      hide Cut, Before, After, RlpFormat.Head;
      if released {
        return None;
      }
      if piece.Some? {
        return piece;
      }
      NextPiece(str, heads, lhpos, strpos);
      if lhpos < |heads| {
        var head := heads[lhpos];
        var sizebefore := head.offset - strpos;
        if sizebefore > 0 {
          p := Some(str[strpos..head.offset]);
          strpos := strpos + sizebefore;
          return;
        }
        lhpos := lhpos + 1;
        return Some(PutHead(0xC0, 0xF7, head.size));
      }
      if strpos < |str| {
        p := Some(str[strpos..]);
        strpos := |str|;
        return;
      }
      return None;
    }

    /** Makes the next piece the reader's piece; without a next piece the buffer is given up. */
    method Fetch()
      requires Valid()
      modifies this
      ensures Valid() && Rest() == old(Rest()) && (released <==> piece.None?)
      ensures if piece.Some? then piece.value != [] && Rest() != [] else Rest() == []
    {
      hide Cut, After, Before, Render;
      piece := Next();
      if piece.None? {
        released := true;
      }
    }

    /** Drops the first n bytes of the piece, which have been copied. */
    method Advance(n: nat)
      requires Valid() && piece.Some? && n <= |piece.value|
      modifies this`piece
      ensures Valid() && old(Rest()) == old(piece.value)[..n] + Rest()
      ensures if n < |old(piece).value| then piece.Some? && Rest() != [] else piece.None?
    {
      hide Cut, After, Before, Render;
      ghost var x := piece.value;
      assert x == x[..n] + x[n..];
      piece := if n < |piece.value| then Some(piece.value[n..]) else None;
    }

    /** Fills b, or as much of it as there is left to read. */
    method Read(b: array<byte>) returns (n: nat, eof: bool)
      requires Valid()
      modifies this, b
      ensures Valid() && n <= b.Length && old(Rest()) == b[..n] + Rest() && b[n..] == old(b[n..])
      ensures if eof then Rest() == [] && released else n == b.Length && Rest() != []
    {
      hide Valid, Rest, Overwritten;
      n := 0;
      while true
        invariant Valid() && ReadSoFar(old(Rest()), old(b[..]), b[..], n, Rest())
        decreases |Rest()|
      {
        Fetch();
        if piece.None? {
          return n, true;
        }
        var p := piece.value;
        var nn := if b.Length - n < |p| then b.Length - n else |p|;
        ghost var was, rest := b[..], Rest();
        nn := Copy(b, n, p[..nn]);
        Advance(nn);
        CopiedMore(old(Rest()), old(b[..]), was, n, rest, p[..nn], b[..], Rest());
        n := n + nn;
        if nn < |p| {
          return n, false;
        }
      }
    }
  }

  /** The encoding of a value to be read in pieces, and its size. */
  method EncodeToReader(t: Item) returns (size: nat, r: EncReader)
    requires |Encode(t)| < TWO_64
    ensures r.Valid() && r.Rest() == Encode(t) && size == |Encode(t)|
  {
    hide Good, Levels, Encode;
    var w := new EncBuf();
    w.WriteItem(t);
    r := new EncReader(w);
    size := w.Size();
    assert Extend([[]], Encode(t)) == [[] + Encode(t)];
  }

  /** n bytes of b have been filled, with what came before rest. */
  ghost predicate ReadSoFar(all: seq<byte>, was: seq<byte>, b: seq<byte>, n: nat, rest: seq<byte>) {
    n <= |b| == |was| && all == b[..n] + rest && b[n..] == was[n..]
  }

  lemma CopiedMore(all: seq<byte>, was: seq<byte>, b: seq<byte>, n: nat, rest: seq<byte>, data: seq<byte>,
      b': seq<byte>, rest': seq<byte>)
    requires ReadSoFar(all, was, b, n, rest) && n + |data| <= |b| && b' == Overwritten(b, n, data)
      && rest == data + rest'
    ensures ReadSoFar(all, was, b', n + |data|, rest')
  {
    assert b'[..n + |data|] == b[..n] + data;
    assert b'[n + |data|..] == b[n..][|data|..] == was[n..][|data|..] == was[n + |data|..];
  }

  /** The three kinds of piece: data before a header, a header, data behind all headers. */
  lemma NextPiece(str: seq<byte>, hs: seq<HeadVal>, i: nat, to: nat)
    requires Cut(str, hs, i, to)
    ensures i <= |hs| && to <= |str| && (i < |hs| ==> to <= hs[i].offset <= |str|)
    ensures var rest := After(str, hs, i, to);
      if i < |hs| then
        if to < hs[i].offset then
          Cut(str, hs, i, hs[i].offset) && rest == str[to..hs[i].offset] + After(str, hs, i, hs[i].offset)
        else Cut(str, hs, i + 1, to) && rest == ListHead(hs[i].size) + After(str, hs, i + 1, to)
      else if to < |str| then Cut(str, hs, i, |str|) && rest == str[to..] + After(str, hs, i, |str|)
      else rest == []
  {
    hide ListHead, Before, Render, After, Within;
    var all := Render(str, hs, 0, |str|);
    CutData(str, hs, i, to);
    if i < |hs| {
      if to < hs[i].offset {
        RestAfter(Before(str, hs, i, to), After(str, hs, i, to), str[to..hs[i].offset], After(str, hs, i, hs[i].offset),
          all);
      } else {
        CutHead(str, hs, i);
        RestAfter(Before(str, hs, i, to), After(str, hs, i, to), ListHead(hs[i].size), After(str, hs, i + 1, to), all);
      }
    } else if to < |str| {
      assert str[to..] == str[to..|str|];
      RestAfter(Before(str, hs, i, to), After(str, hs, i, to), str[to..], After(str, hs, i, |str|), all);
    } else {
      CutEnd(str, hs);
    }
  }

  lemma RestAfter(before: seq<byte>, rest: seq<byte>, piece: seq<byte>, rest': seq<byte>, all: seq<byte>)
    requires before + rest == all == (before + piece) + rest'
    ensures rest == piece + rest'
  {
    assert rest == all[|before|..];
  }
}
