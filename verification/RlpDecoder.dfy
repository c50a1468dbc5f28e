/** Decoding a stream into an interface value: byte slices and slices of such values. */
module RlpDecoder {
  import opened Wrappers
  import opened Bytes
  import opened RlpFormat
  import opened RlpPositions
  import opened RlpStream
  import RlpRaw

  type Result<T> = RlpStream.Result<T>

  /** With w ahead at position p, the encoding of r is taken off, ending at q, or no value is encoded there. */
  ghost predicate Decoded(w: seq<byte>, p: Position, r: Result<Item>, q: Position)
    requires Backed(p)
  {
    match r
    case Ok(t) => Backed(q) && Follows(p, q) && w == Encode(t) + Window(q)
    case Err(_) => NoItem(w)
  }

  /** What is left of the input, and a header that has been read already. */
  ghost function Work(s: Stream): nat
    requires s.Valid()
    reads s
  {
    2 * (|s.input| - s.rpos) + if s.kind.Some? then 1 else 0
  }

  /** All elements up to the end of the level at p, ending at q, or the level is no sequence of values. */
  ghost predicate DecodedAll(p: Position, r: Result<seq<Item>>, q: Position)
    requires Backed(p)
  {
    match r
    case Ok(items) => Backed(q) && Follows(p, q) && Window(q) == [] && Window(p) == EncodeAll(items)
    case Err(_) => forall ts :: Window(p) != EncodeAll(ts)
  }

  /** On a stream over a byte slice, exactly what is encoded there; on any other stream it ends, too. */
  method DecodeInterface(s: Stream) returns (r: Result<Item>)
    requires s.Valid()
    modifies s
    ensures s.Valid() && s.input == old(s.input) && s.rpos >= old(s.rpos)
    ensures r.Ok? ==> s.kind.None? && (old(s.kind.None?) ==> s.rpos > old(s.rpos))
    ensures old(s.Ready()) && (r.Ok? || r == Err(EOL)) ==> s.Ready() && s.kind.None?
    ensures old(s.Ready()) ==> Decoded(old(s.Ahead()), old(s.At()), r, s.At())
    ensures old(s.Ready()) && r == Err(EOL) ==> old(s.Ahead()) == [] && s.At() == old(s.At())
    ensures old(s.Ready()) && old(s.Ahead() == [] && s.stack != []) ==> r == Err(EOL)
    decreases Work(s), 2
  {
    hide Sound, Backed, Follows, Moved, Window, NoItem, Decoded, NoString, HeaderOf, Allows;
    ghost var ready := s.Ready();
    ghost var w, p := if ready then s.Ahead() else [], s.At();
    if ready {
      EmptyLevel(p);
    }
    var k, _, err := s.NextKind();
    if err.Some? {
      if ready {
        NoValueNoItem(w);
        NotDecoded(w, p, err.value, s.At());
      }
      return Err(err.value);
    }
    ghost var p1 := s.At();
    if k == Kind.List {
      r := DecodeListSlice(s);
      if ready {
        DecodedLater(w, p, p1, r, s.At());
      }
    } else {
      var b := s.Bytes();
      if ready {
        StringDecoded(w, p, p1, b, s.At());
      }
      r := match b case Ok(c) => Ok(Str(c)) case Err(e) => Err(e);
    }
  }

  method DecodeListSlice(s: Stream) returns (r: Result<Item>)
    requires s.Valid() && s.kind == Some(Kind.List)
    modifies s
    ensures s.Valid() && s.input == old(s.input) && s.rpos >= old(s.rpos) && (r.Ok? ==> s.kind.None?)
    ensures old(s.Ready()) ==> (r.Ok? ==> s.Ready()) && r != Err(EOL)
    ensures old(s.Ready()) ==> Decoded(old(s.Ahead()), old(s.At()), r, s.At())
    decreases Work(s), 1
  {
    hide Sound, Backed, Follows, Moved, Window, NoItem, Decoded, HeaderOf, Allows, DecodedAll, Popped;
    ghost var ready := s.Ready();
    ghost var w, p, seen := if ready then s.Ahead() else [], s.At(), s.seen;
    var size := s.List();
    if ready {
      ListLevel(w, p, size, s.At(), seen);
    }
    if size.Err? {
      return Err(size.error);
    }
    var items := Ok([]);
    if size.value == 0 {
      if ready {
        EmptyElems(s.At());
      }
    } else {
      items := DecodeSliceElems(s);
    }
    if ready {
      ListDecoded(w, p, size.value, items, s.At(), seen);
    }
    if items.Err? {
      return Err(items.error);
    }
    var err := s.ListEnd();
    if err.Some? {
      return Err(err.value);
    }
    return Ok(Item.List(items.value));
  }

  /** The values up to the end of the innermost list. */
  method DecodeSliceElems(s: Stream) returns (r: Result<seq<Item>>)
    requires s.Valid() && s.kind.None? && s.stack != []
    modifies s
    ensures s.Valid() && s.input == old(s.input) && s.rpos >= old(s.rpos)
    ensures old(s.Ready()) ==> (r.Ok? ==> s.Ready() && s.kind.None?) && r != Err(EOL)
    ensures old(s.Ready()) ==> DecodedAll(old(s.At()), r, s.At())
    decreases Work(s), 3
  {
    hide Sound, Backed, Follows, Moved, Window, NoItem, Decoded, HeaderOf, Allows, EncodeAll, DecodedAll, Elems;
    var items: seq<Item> := [];
    ghost var ready, p := s.Ready(), s.At();
    if ready {
      NoElems(p);
    }
    while true
      invariant s.Valid() && s.kind.None? && s.input == old(s.input) && s.rpos >= old(s.rpos)
      invariant Work(s) <= old(Work(s))
      invariant ready ==> s.Ready() && s.stack != [] && Elems(p, items, s.At())
      decreases |s.input| - s.rpos
    {
      ghost var q := s.At();
      assert ready ==> s.Ahead() == Window(q);
      var t := DecodeInterface(s);
      if t == Err(EOL) {
        if ready {
          AllElems(p, items, q);
        }
        return Ok(items);
      }
      if t.Err? {
        if ready {
          BadElem(p, items, q, t.error, s.At());
        }
        return Err(t.error);
      }
      if ready {
        NextElem(p, items, q, t.value, s.At());
      }
      items := items + [t.value];
    }
  }

  /** From p to q the given elements have been read. */
  ghost predicate Elems(p: Position, items: seq<Item>, q: Position)
    requires Backed(p)
  {
    Backed(q) && Follows(p, q) && Window(p) == EncodeAll(items) + Window(q)
  }

  lemma NoElems(p: Position)
    requires Backed(p)
    ensures Elems(p, [], p)
  {
    FollowsRefl(p);
    assert Window(p) == [] + Window(p);
  }

  lemma NextElem(p: Position, items: seq<Item>, q: Position, t: Item, q1: Position)
    requires Backed(p) && Elems(p, items, q) && Decoded(Window(q), q, Ok(t), q1)
    ensures Elems(p, items + [t], q1) && q1.remaining < q.remaining && |q1.stack| == |q.stack|
  {
    FollowsTrans(p, q, q1);
    FollowsBacked(q, q1);
    FollowsShrinks(q, q1);
    assert (items + [t])[..|items + [t]| - 1] == items;
    assert Window(p) == EncodeAll(items) + Encode(t) + Window(q1);
  }

  lemma AllElems(p: Position, items: seq<Item>, q: Position)
    requires Backed(p) && Elems(p, items, q) && Window(q) == []
    ensures DecodedAll(p, Ok(items), q)
  {
  }

  lemma BadElem(p: Position, items: seq<Item>, q: Position, e: Error, q1: Position)
    requires Backed(p) && Elems(p, items, q) && Decoded(Window(q), q, Err(e), q1) && Window(q) != []
    ensures DecodedAll(p, Err(e), q1)
  {
    forall ts ensures Window(p) != EncodeAll(ts) {
      NoSequence(items, Window(q), ts);
    }
  }

  lemma EmptyElems(p: Position)
    requires Backed(p) && Window(p) == []
    ensures DecodedAll(p, Ok([]), p)
  {
    FollowsRefl(p);
  }

  /** At the end of a list exactly nothing is ahead. */
  lemma EmptyLevel(p: Position)
    requires Backed(p)
    ensures p.stack != [] ==> (Top(p.stack).pos == Top(p.stack).size <==> Window(p) == [])
  {
  }

  lemma NotDecoded(w: seq<byte>, p: Position, e: Error, q: Position)
    requires Backed(p) && NoItem(w)
    ensures Decoded(w, p, Err(e), q)
  {
  }

  lemma DecodedLater(w: seq<byte>, p0: Position, p: Position, r: Result<Item>, q: Position)
    requires Backed(p0) && Follows(p0, p) && Backed(p) && Decoded(w, p, r, q)
    ensures Decoded(w, p0, r, q)
  {
    if r.Ok? {
      FollowsTrans(p0, p, q);
    }
  }

  lemma StringDecoded(w: seq<byte>, p0: Position, p: Position, r: Result<seq<byte>>, q: Position)
    requires Backed(p0) && Follows(p0, p) && Backed(p) && TookString(w, p, r, q)
    requires HeaderOf(w).Some? && HeaderOf(w).value.kind != Kind.List && |w| < TWO_64
    ensures Decoded(w, p0, match r case Ok(c) => Ok(Str(c)) case Err(e) => Err(e), q)
  {
    match r
    case Ok(c) => FollowsTrans(p0, p, q);
    case Err(_) =>
      forall t: Item ensures !StartsWith(w, t) {
        if StartsWith(w, t) {
          StartsWithHeader(w, t);
        }
      }
  }

  lemma ListLevel(w: seq<byte>, p: Position, r: Result<nat>, q: Position, seen: seq<byte>)
    requires Backed(p) && w == seen + Window(p)
    requires HeaderOf(w).Some? && HeaderOf(w).value.kind == Kind.List && HeaderOf(w).value.tag == |seen|
    requires HeaderOf(w).value.size <= |Window(p)| && EnteredList(w, p, r, q)
    ensures r.Ok? && r.value == HeaderOf(w).value.size && |Window(q)| == r.value && Backed(q)
  {
  }

  lemma ListDecoded(w: seq<byte>, p: Position, size: nat, items: Result<seq<Item>>, q: Position, seen: seq<byte>)
    requires Backed(p) && w == seen + Window(p) && |w| < TWO_64
    requires HeaderOf(w) == Some(Header(Kind.List, |seen|, size)) && size <= |Window(p)|
    requires Backed(Pushed(p, size)) && DecodedAll(Pushed(p, size), items, q)
    ensures items.Err? ==> Decoded(w, p, Err(items.error), q)
    ensures items.Ok? ==> q.stack != [] && Top(q.stack).pos == Top(q.stack).size
    ensures items.Ok? ==> Backed(Popped(q)) && Decoded(w, p, Ok(Item.List(items.value)), Popped(q))
  {
    hide Backed, Follows, Pushed, Popped, HeaderOf, Sound;
    PushedWindow(p, size);
    assert Window(Pushed(p, size)) == w[|seen|..|seen| + size];
    hide Window;
    match items
    case Ok(ts) =>
      LeaveList(p, size, q);
      ListItem(w, ts);
      assert w == w[..|seen| + size] + Window(Popped(q));
    case Err(_) =>
      NoSuchList(w, |seen|, size);
  }

  lemma NoSuchList(w: seq<byte>, tag: nat, size: nat)
    requires |w| < TWO_64 && HeaderOf(w) == Some(Header(Kind.List, tag, size)) && tag + size <= |w|
    requires forall ts :: w[tag..tag + size] != EncodeAll(ts)
    ensures NoItem(w)
  {
    forall t: Item ensures !StartsWith(w, t) {
      if StartsWith(w, t) {
        StartsWithHeader(w, t);
      }
    }
  }

  /** An interface value from a byte slice that holds one encoded value and nothing else. */
  method DecodeBytes(b: seq<byte>) returns (r: Result<Item>)
    requires |b| < TWO_63
    ensures r.Ok? ==> b == Encode(r.value)
    ensures r.Err? ==> forall t :: b != Encode(t)
    ensures forall t :: b == Encode(t) ==> r == Ok(t)
    ensures forall t :: StartsWith(b, t) && b != Encode(t) ==> r == Err(MoreThanOneValue)
  {
    hide Sound, Backed, Follows, Moved, HeaderOf, NoItem, Decoded, Encode, StartsWith;
    var s := new Stream(b, |b|);
    ghost var p := s.At();
    r := DecodeInterface(s);
    WholeInput(b, p, r, s.At());
    if r.Ok? && |b| - s.rpos > 0 {
      return Err(MoreThanOneValue);
    }
    forall t | b == Encode(t) ensures r == Ok(t) {
      EncodeInjective(t, r.value);
    }
  }

  lemma WholeInput(b: seq<byte>, p: Position, r: Result<Item>, q: Position)
    requires Backed(p) && p == Position(b, 0, true, |b|, []) && Decoded(b, p, r, q)
    ensures r.Ok? ==> q.input == b && b == Encode(r.value) + b[q.rpos..] && q.rpos <= |b|
    ensures r.Ok? && q.rpos < |b| ==> forall t :: b != Encode(t)
    ensures r.Err? ==> forall t :: b != Encode(t) && !StartsWith(b, t)
    ensures r.Ok? && q.rpos == |b| ==> forall t :: StartsWith(b, t) ==> b == Encode(t)
  {
    if r.Ok? {
      FollowsBacked(p, q);
      assert Window(q) == b[q.rpos..];
      var e := Encode(r.value);
      assert StartsWith(b, r.value);
      forall t ensures b == Encode(t) ==> q.rpos == |b| {
        if b == Encode(t) {
          PrefixFree(b, r.value, t);
        }
      }
      forall t | StartsWith(b, t) && q.rpos == |b| ensures b == Encode(t) {
        PrefixFree(b, r.value, t);
      }
    } else {
      forall t ensures b != Encode(t) && !StartsWith(b, t) {
        assert !StartsWith(b, t);
      }
    }
  }

  /** On a byte slice Stream.Bytes accepts what SplitString accepts, with the same content and the same rest. */
  lemma BytesIsSplitString(b: seq<byte>, p: Position, r: Result<seq<byte>>, q: Position)
    requires Backed(p) && |b| < TWO_64 && TookString(b, p, r, q)
    ensures r.Ok? <==> RlpRaw.SplitString(b).Ok?
    ensures r.Ok? ==> RlpRaw.SplitString(b).value.content == r.value && RlpRaw.SplitString(b).value.rest == Window(q)
  {
    RlpRaw.SplitStringIsEncode(b);
    if r.Ok? {
      assert StartsWith(b, Str(r.value));
      if RlpRaw.SplitString(b).Ok? {
        var parts := RlpRaw.SplitString(b).value;
        assert StartsWith(b, Str(parts.content));
        PrefixFree(b, Str(r.value), Str(parts.content));
      }
    } else if RlpRaw.SplitString(b).Ok? {
      assert StartsWith(b, Str(RlpRaw.SplitString(b).value.content));
    }
  }
}
