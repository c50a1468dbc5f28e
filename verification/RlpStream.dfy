/** Stream: piecemeal decoding of an input with open lists. */
module RlpStream {
  import opened Wrappers
  import opened Bytes
  import opened RlpFormat
  import opened RlpPositions
  import Division

  datatype Error = EOL | ExpectedString | ExpectedList | CanonInt | CanonSize | ElemTooLarge | ValueTooLarge
    | MoreThanOneValue | NotInList | NotAtEOL | UintOverflow | EOF | UnexpectedEOF | InvalidBool

  type Result<T> = Wrappers.Result<T, Error>

  /** More is asked for than is left of the innermost list, or of the input. */
  function TooLarge(inList: bool): Error {
    if inList then ElemTooLarge else ValueTooLarge
  }

  /** How many bytes of size follow the tag byte of a long value. */
  function SizeLength(tag: byte): int {
    if tag < 0xC0 then tag - 0xB7 else tag - 0xF7
  }

  /** The error for bytes at the front of which there is no complete value. */
  function ValueFault(w: seq<byte>, inList: bool): Error {
    if w == [] then if inList then EOL else EOF
    else if HeaderOf(w).Some? || |w| < 1 + SizeLength(w[0]) then TooLarge(inList)
    else CanonSize
  }

  /** The error for bytes at the front of which there is no string. */
  function StringFault(w: seq<byte>, inList: bool): Error {
    if NoValue(w) then ValueFault(w, inList)
    else if HeaderOf(w).value.kind == Kind.List then ExpectedString
    else CanonSize
  }

  /** The error for bytes at the front of which there is no integer of max bytes. */
  function UintFault(w: seq<byte>, inList: bool, max: nat): Error {
    if NoValue(w) then ValueFault(w, inList)
    else
      var h := HeaderOf(w).value;
      match h.kind
      case Byte => CanonInt
      case String => if h.size > max then UintOverflow else if h.size >= 2 then CanonInt else CanonSize
      case List => ExpectedString
  }

  lemma FaultOfNoValue(w: seq<byte>, inList: bool, max: nat)
    requires NoValue(w)
    ensures UintFault(w, inList, max) == ValueFault(w, inList)
  {
  }

  lemma FaultOfHeader(w: seq<byte>, inList: bool, max: nat)
    requires !NoValue(w)
    ensures var h := HeaderOf(w).value;
      UintFault(w, inList, max) == match h.kind
        case Byte => CanonInt
        case String => if h.size > max then UintOverflow else if h.size >= 2 then CanonInt else CanonSize
        case List => ExpectedString
  {
  }

  /** What reading from the input can end in. */
  predicate ReadError(e: Error) {
    e == ElemTooLarge || e == ValueTooLarge || e == UnexpectedEOF
  }

  class Stream {
    /** What the reader r yields, and how much of it has been read. */
    var input: seq<byte>
    var rpos: nat
    var remaining: nat
    var limited: bool
    /** None when the next header has not been read, which the source writes as a negative kind. */
    var kind: Option<Kind>
    var size: nat
    var byteval: byte
    var kinderr: Option<Error>
    var stack: seq<ListPos>
    /** The bytes of the header that kind and size come from. */
    ghost var seen: seq<byte>

    ghost function At(): Position
      reads this
    {
      Position(input, rpos, limited, remaining, stack)
    }

    ghost predicate Valid()
      reads this
    {
      && Sound(At())
      && size < TWO_64
      && (kind.None? ==> seen == [])
      && (kind.Some? && kinderr.None? ==> Allows(At(), size))
      && (kind.Some? && kinderr.None? && Backed(At()) ==>
        HeaderOf(seen + Window(At())) == Some(Header(kind.value, |seen|, size))
          && (kind.value == Byte ==> seen == [byteval]))
    }

    /** Reading from a slice, with no error waiting to be returned again. */
    ghost predicate Ready()
      reads this
    {
      Valid() && Backed(At()) && (kind.Some? ==> kinderr.None?)
    }

    /** All bytes of this level from the start of the next value, its header included if that has been read. */
    ghost function Ahead(): (w: seq<byte>)
      requires Ready()
      reads this
      ensures |w| < TWO_64
    {
      seen + Window(At())
    }

    /** NewStream with a reader over a byte slice, a limit of zero standing for the length of the slice. */
    constructor (r: seq<byte>, inputLimit: nat)
      requires inputLimit < TWO_64 && |r| < TWO_64
      ensures Valid() && kind.None?
      ensures At() == Position(r, 0, true, if inputLimit > 0 then inputLimit else |r|, [])
      ensures inputLimit in {0, |r|} && |r| < TWO_63 ==> Ready() && Ahead() == r
    {
      input, rpos := r, 0;
      remaining, limited := if inputLimit > 0 then inputLimit else |r|, true;
      kind, size, byteval, kinderr, stack := None, 0, 0, None, [];
      seen := [];
    }

    /** NewStream with any other reader: there is a limit only if one is given. */
    constructor FromReader(r: seq<byte>, inputLimit: nat)
      requires inputLimit < TWO_64
      ensures Valid() && kind.None?
      ensures At() == Position(r, 0, inputLimit > 0, inputLimit, [])
    {
      input, rpos := r, 0;
      remaining, limited := inputLimit, inputLimit > 0;
      kind, size, byteval, kinderr, stack := None, 0, 0, None, [];
      seen := [];
    }

    /** NewListStream over a byte slice, as if a list header had been read: if the slice is long enough for the list,
        that is what is ahead; behind the header of an empty list the whole slice is. */
    constructor ListStream(r: seq<byte>, length: nat)
      requires length < TWO_64 && |r| < TWO_64
      ensures Valid() && kind == Some(Kind.List) && size == length && kinderr.None?
      ensures At() == Position(r, 0, true, if length > 0 then length else |r|, [])
      ensures length <= |r| < TWO_63 ==>
        Ready() && Ahead() == ListHead(length) + if length > 0 then r[..length] else r
    {
      input, rpos := r, 0;
      remaining, limited := if length > 0 then length else |r|, true;
      kind, size, byteval, kinderr, stack := Some(Kind.List), length, 0, None, [];
      seen := ListHead(length);
      new;
      HeaderOfListHead(length, if Backed(At()) then Window(At()) else []);
    }

    /** NewListStream with any other reader. */
    constructor ListFromReader(r: seq<byte>, length: nat)
      requires length < TWO_64
      ensures Valid() && kind == Some(Kind.List) && size == length && kinderr.None?
      ensures At() == Position(r, 0, length > 0, length, [])
    {
      input, rpos := r, 0;
      remaining, limited := length, length > 0;
      kind, size, byteval, kinderr, stack := Some(Kind.List), length, 0, None, [];
      seen := ListHead(length);
      new;
      HeaderOfListHead(length, if Backed(At()) then Window(At()) else []);
    }

    method WillRead(n: nat) returns (err: Option<Error>)
      requires Valid()
      modifies this`kind, this`stack, this`remaining, this`seen
      ensures Valid() && kind.None?
      ensures err.None? <==> old(Allows(At(), n))
      ensures err.Some? ==> At() == old(At()) && err.value == TooLarge(stack != [])
      ensures err.None? ==> (limited ==> n <= old(remaining)) && At() == Charged(old(At()), n)
    {
      hide Sound, Backed, HeaderOf, Window;
      TopFits(At());
      if Allows(At(), n) {
        ChargedSound(At(), n);
      }
      kind, seen := None, [];
      if stack != [] {
        var tos := stack[|stack| - 1];
        var room: nat := tos.size - tos.pos;
        if n > room {
          return Some(ElemTooLarge);
        }
        stack := stack[|stack| - 1 := ListPos(tos.pos + n, tos.size)];
      }
      if limited {
        if n > remaining {
          return Some(ValueTooLarge);
        }
        remaining := remaining - n;
      }
      return None;
    }

    /** r.Read into a buffer of n bytes: as few as the reader likes, but at least one unless the input is at its end. */
    method Read(n: nat) returns (chunk: seq<byte>, eof: bool)
      requires Valid() && kind.None? && n > 0
      modifies this`rpos
      ensures Valid() && |chunk| <= n && rpos == old(rpos) + |chunk| <= |input|
      ensures chunk == input[old(rpos)..rpos]
      ensures if eof then rpos == |input| else |chunk| > 0
    {
      var left := |input| - rpos;
      if left == 0 {
        return [], true;
      }
      var k: nat :| 1 <= k <= n && k <= left;
      chunk, eof := input[rpos..rpos + k], false;
      rpos := rpos + k;
    }

    method ReadFull(n: nat) returns (buf: seq<byte>, err: Option<Error>)
      requires Valid()
      modifies this`kind, this`stack, this`remaining, this`seen, this`rpos
      ensures Valid() && kind.None? && |stack| == |old(stack)| && rpos >= old(rpos)
      ensures err.None? ==>
        old(Allows(At(), n)) && rpos == old(rpos) + n == old(rpos) + |buf| && buf == input[old(rpos)..rpos]
      ensures err.None? ==> (limited ==> n <= old(remaining)) && At() == Moved(old(At()), n)
      ensures err.Some? ==> ReadError(err.value)
      ensures old(Backed(At()) && Allows(At(), n)) ==> err.None?
      ensures !old(Allows(At(), n)) ==> err == Some(TooLarge(old(stack) != []))
    {
      hide Sound, Window, HeaderOf;
      err := WillRead(n);
      if err.Some? {
        return [], err;
      }
      ghost var charged := At();
      ghost var enough := old(Backed(At()) && Allows(At(), n));
      ghost var start := rpos;
      buf := [];
      var eof := false;
      TopFits(At());
      while |buf| < n && !eof
        invariant At() == charged.(rpos := rpos)
        invariant Valid() && kind.None? && |buf| <= n
        invariant start + |buf| == rpos <= |input| && buf == input[start..rpos]
        invariant eof ==> rpos == |input|
        invariant enough ==> start + n <= |input|
        decreases n - |buf|, !eof
      {
        var chunk;
        ghost var from := rpos;
        chunk, eof := Read(n - |buf|);
        Continues(input, start, from, rpos);
        buf := buf + chunk;
      }
      if |buf| < n {
        err := Some(UnexpectedEOF);
      }
    }

    method ReadByte() returns (b: byte, err: Option<Error>)
      requires Valid()
      modifies this`kind, this`stack, this`remaining, this`seen, this`rpos
      ensures Valid() && kind.None? && |stack| == |old(stack)| && rpos >= old(rpos)
      ensures err.None? ==> old(Allows(At(), 1)) && old(rpos) < |input| && b == input[old(rpos)]
      ensures err.None? ==> (limited ==> 1 <= old(remaining)) && At() == Moved(old(At()), 1)
      ensures err.Some? ==> ReadError(err.value)
      ensures old(Backed(At()) && Allows(At(), 1)) ==> err.None?
      ensures !old(Allows(At(), 1)) ==> err == Some(TooLarge(old(stack) != []))
    {
      err := WillRead(1);
      if err.Some? {
        return 0, err;
      }
      if rpos == |input| {
        return 0, Some(UnexpectedEOF);
      }
      b := input[rpos];
      rpos := rpos + 1;
    }

    /** An integer in the given number of bytes; from two bytes on it must not start with a zero byte. */
    method ReadUint(n: nat) returns (v: nat, err: Option<Error>)
      requires Valid() && n <= 8
      modifies this`kind, this`stack, this`remaining, this`seen, this`rpos
      ensures Valid() && kind.None? && |stack| == |old(stack)| && v < TWO_64 && rpos >= old(rpos)
      ensures err.None? ==>
        old(Allows(At(), n)) && rpos == old(rpos) + n && v == FromBytes(input[old(rpos)..rpos])
        && (limited ==> n <= old(remaining)) && At() == Moved(old(At()), n)
        && (n >= 2 ==> input[old(rpos)] != 0 && v >= 256)
      ensures err.Some? ==> ReadError(err.value) || (n >= 2 && err.value == CanonSize)
      ensures n == 0 || old(Backed(At()) && Allows(At(), n) && rpos < |input| && (n >= 2 ==> input[rpos] != 0)) ==>
        err.None?
      ensures n > 0 && !old(Allows(At(), n)) ==> err == Some(TooLarge(old(stack) != []))
      ensures old(Backed(At()) && Allows(At(), n)) && err.Some? ==> n >= 2 && err.value == CanonSize
    {
      if n == 0 {
        kind, seen := None, [];
        assert input[rpos..rpos] == [] && FromBytes([]) == 0;
        return 0, None;
      }
      hide Sound, HeaderOf, Window, Backed, Charged, FromBytes;
      if n == 1 {
        v, err := ReadByte();
        if err.None? {
          OneByte(input, rpos - 1);
        }
        return;
      }
      var start := 8 - n;
      var uintbuf;
      uintbuf, err := ReadFull(n);
      if err.Some? {
        return 0, err;
      }
      var zeros := Zeros(start);
      LeadingZeros(start, uintbuf);
      EightBytes(zeros + uintbuf);
      if uintbuf[0] == 0 {
        return 0, Some(CanonSize);
      }
      LargeContent(uintbuf);
      return FromBytes(zeros + uintbuf), None;
    }

    /** A size of n bytes behind a tag byte. */
    method ReadSize(n: nat, ghost k: Kind, ghost p: Position) returns (v: nat, err: Option<Error>)
      requires Valid() && 1 <= n <= 8
      requires Backed(p) ==> Window(p) != [] && At() == Moved(p, 1)
      modifies this`kind, this`stack, this`remaining, this`seen, this`rpos
      ensures Valid() && kind.None? && |stack| == |old(stack)| && v < TWO_64 && rpos >= old(rpos)
      ensures err.Some? ==> err.value != EOL
      ensures err.None? && limited ==> rpos + remaining == old(rpos + remaining)
      ensures Backed(p) ==> HeaderRead(p, LongHeader(k, Window(p), n), k, v, err, At())
      ensures Backed(p) && err.Some? ==>
        err.value == if |Window(p)| < 1 + n then TooLarge(old(stack) != []) else CanonSize
    {
      hide Sound, LongHeader, Valid, Window, Allows;
      ghost var p1 := At();
      if Backed(p) {
        LongHeaderRead(p, n, k);
      }
      v, err := ReadUint(n);
      if err.None? && v < 56 {
        err := Some(CanonSize);
      }
    }

    /** The header at the front of this level; errors at top level count as the end of the input. */
    method ReadKind() returns (k: Kind, n: nat, err: Option<Error>)
      requires Valid() && kind.None?
      modifies this`kind, this`stack, this`remaining, this`seen, this`rpos, this`byteval
      ensures Valid() && kind.None? && |stack| == |old(stack)| && n < TWO_64
      ensures rpos >= old(rpos) && (err.None? ==> rpos > old(rpos))
      ensures err.Some? ==> err.value != EOL
      ensures err.None? && limited ==> rpos + remaining == old(rpos + remaining)
      ensures old(Backed(At())) ==> HeaderRead(old(At()), HeaderOf(Window(old(At()))), k, n, err, At())
      ensures old(Backed(At())) && err.None? && k == Byte ==> [byteval] == Window(old(At()))[..1]
      ensures old(Backed(At())) && err.Some? && (old(stack) == [] || Window(old(At())) != []) ==>
        err.value == ValueFault(Window(old(At())), old(stack) != [])
    {
      hide Sound, LongHeader, Window;
      ghost var p := At();
      if Backed(p) {
        FirstByte(p);
      }
      var b;
      b, err := ReadByte();
      if err.Some? {
        if |stack| == 0 && (err.value == UnexpectedEOF || err.value == ValueTooLarge) {
          err := Some(EOF);
        }
        return Byte, 0, err;
      }
      byteval := 0;
      if b < 0x80 {
        byteval := b;
        return Byte, 0, None;
      } else if b < 0xB8 {
        return String, b - 0x80, None;
      } else if b < 0xC0 {
        n, err := ReadSize(b - 0xB7, String, p);
        return String, n, err;
      } else if b < 0xF8 {
        return Kind.List, b - 0xC0, None;
      } else {
        n, err := ReadSize(b - 0xF7, Kind.List, p);
        return Kind.List, n, err;
      }
    }

    /** Why a value of n content bytes does not fit in what is left of this level, if so. */
    function Overflow(n: nat): (err: Option<Error>)
      requires Valid()
      reads this
      ensures err.None? <==> Allows(At(), n)
      ensures err.Some? ==> err.value == TooLarge(stack != [])
    {
      TopFits(At());
      if stack == [] then
        if limited && n > remaining then Some(ValueTooLarge) else None
      else
        var tos := stack[|stack| - 1];
        var room: nat := tos.size - tos.pos;
        if n > room then Some(ElemTooLarge) else None
    }

    /** Kind and size of the next value; its header is read once and remembered. */
    method NextKind() returns (k: Kind, n: nat, err: Option<Error>)
      requires Valid()
      modifies this
      ensures Valid() && |stack| == |old(stack)| && input == old(input) && limited == old(limited)
      ensures rpos >= old(rpos) && (err.None? && old(kind.None?) ==> rpos > old(rpos))
      ensures old(kind.Some?) ==>
        At() == old(At()) && seen == old(seen) && Some(k) == kind && n == size && err == kinderr
      ensures old(kind.Some?) ==>
        kind == old(kind) && size == old(size) && kinderr == old(kinderr) && byteval == old(byteval)
      ensures err.None? ==> kind == Some(k) && size == n && kinderr.None?
      ensures old(kind.None?) ==> (err == Some(EOL) <==> stack != [] && Top(old(stack)).pos == Top(old(stack)).size)
      ensures err == Some(EOL) && old(kind.None?) ==> At() == old(At()) && kind.None?
      ensures old(Ready()) ==>
        if err.None? then Ready() && Ahead() == old(Ahead()) else NoValue(old(Ahead())) && old(kind.None?)
      ensures old(Ready()) && err.Some? ==> err.value == ValueFault(old(Ahead()), old(stack) != [])
      ensures old(Ready()) && err.None? ==> Follows(old(At()), At())
      ensures old(Ready()) && err.None? && old(kind.None?) ==> remaining < old(remaining)
    {
      hide Sound, Window, HeaderOf, Backed, Allows, Moved, Follows;
      if Backed(At()) {
        FollowsRefl(At());
      }
      if kind.None? {
        ghost var p := At();
        assert Backed(p) ==> [] + Window(p) == Window(p);
        kinderr := None;
        if stack != [] && stack[|stack| - 1].pos == stack[|stack| - 1].size {
          if Backed(p) {
            EmptyWindow(p);
          }
          return Byte, 0, Some(EOL);
        }
        k, n, err := ReadKind();
        if err.None? {
          if Backed(p) {
            HeaderAhead(p, k, n, At());
          }
          BackedBefore(p, At());
          err := Overflow(n);
        }
        kind, size, kinderr := Some(k), n, err;
        if Backed(p) && err.None? {
          seen := HeaderBytes(p);
        }
      }
      return kind.value, size, kinderr;
    }

    /** An encoded string. */
    method Bytes() returns (r: Result<seq<byte>>)
      requires Valid()
      modifies this
      ensures Valid() && |stack| == |old(stack)| && (r.Ok? ==> kind.None?) && (old(Ready()) && r.Ok? ==> Ready())
      ensures input == old(input) && rpos >= old(rpos) && (r.Ok? && old(kind.None?) ==> rpos > old(rpos))
      ensures old(Ready()) ==> TookString(old(Ahead()), old(At()), r, At())
      ensures old(Ready()) && r.Err? ==> r.error == StringFault(old(Ahead()), old(stack) != [])
      ensures old(Ready() && kind.Some?) ==> r != Err(EOL)
    {
      hide Sound, HeaderOf, Window, Backed, Allows, Moved, EncodeStr, Follows, NoString;
      var k, n, err := NextKind();
      if err.Some? {
        if old(Ready()) {
          NoValueNoItem(old(Ahead()));
        }
        return Err(err.value);
      }
      if old(Ready()) {
        StringAhead(seen, old(At()), At(), k, n);
      }
      match k
      case Byte =>
        kind, seen := None, [];
        return Ok([byteval]);
      case String =>
        var b;
        b, err := ReadFull(n);
        if err.Some? {
          return Err(err.value);
        }
        if n == 1 && b[0] < 128 {
          return Err(CanonSize);
        }
        return Ok(b);
      case List =>
        return Err(ExpectedString);
    }

    /** A value with its header, which has to be written anew because it has already been read. */
    method Raw() returns (r: Result<seq<byte>>)
      requires Valid()
      modifies this
      ensures Valid() && |stack| == |old(stack)| && (old(Ready()) && r.Ok? ==> Ready() && kind.None?)
      ensures old(Ready()) ==> TookValue(old(Ahead()), old(At()), r, At())
      ensures old(Ready()) && r.Err? ==> r.error == ValueFault(old(Ahead()), old(stack) != [])
    {
      hide Sound, HeaderOf, Window, Backed, Allows, Moved, Follows, StrHead, ListHead;
      var k, n, err := NextKind();
      if err.Some? {
        return Err(err.value);
      }
      if old(Ready()) {
        ValueAhead(seen, old(At()), At(), k, n);
      }
      if k == Byte {
        kind, seen := None, [];
        return Ok([byteval]);
      }
      var content;
      content, err := ReadFull(n);
      if err.Some? {
        return Err(err.value);
      }
      return Ok((if k == String then StrHead(n) else ListHead(n)) + content);
    }

    /** An integer of at most maxbits bits. */
    method Uint(maxbits: nat) returns (r: Result<nat>)
      requires Valid() && maxbits in {8, 16, 32, 64}
      modifies this
      ensures Valid() && |stack| == |old(stack)| && (old(Ready()) && r.Ok? ==> Ready() && kind.None?)
      ensures old(Ready()) ==> TookUint(old(Ahead()), old(At()), maxbits / 8, r, At())
      ensures old(Ready()) && r.Err? ==> r.error == UintFault(old(Ahead()), old(stack) != [], maxbits / 8)
    {
      hide Sound, HeaderOf, Window, Backed, Allows, Moved, EncodeStr, Follows, NoUint, FromBytes, ToBytes, UintFault;
      var k, n, err := NextKind();
      if err.Some? {
        if old(Ready()) {
          NoValueNoUint(old(Ahead()), maxbits / 8);
          FaultOfNoValue(old(Ahead()), old(stack) != [], maxbits / 8);
        }
        return Err(err.value);
      }
      if old(Ready()) {
        UintAhead(seen, old(At()), At(), k, n, maxbits / 8);
        FaultOfHeader(old(Ahead()), old(stack) != [], maxbits / 8);
        assert HeaderOf(old(Ahead())) == Some(Header(k, |seen|, n));
        assert |old(Ahead())| == |seen| + |Window(At())|;
      }
      match k
      case Byte =>
        if byteval == 0 {
          return Err(CanonInt);
        }
        kind, seen := None, [];
        return Ok(byteval);
      case String =>
        if n > maxbits / 8 {
          return Err(UintOverflow);
        }
        var v;
        v, err := ReadUint(n);
        if err.Some? {
          return Err(if err.value == CanonSize then CanonInt else err.value);
        }
        if n > 0 && v < 128 {
          return Err(CanonSize);
        }
        return Ok(v);
      case List =>
        return Err(ExpectedString);
    }

    method Bool() returns (r: Result<bool>)
      requires Valid()
      modifies this
      ensures Valid() && |stack| == |old(stack)| && (old(Ready()) && r.Ok? ==> Ready() && kind.None?)
      ensures old(Ready()) && r.Ok? ==>
        TookUint(old(Ahead()), old(At()), 1, Ok(if r.value then 1 else 0), At())
      ensures old(Ready()) && r.Err? ==> !StartsWith(old(Ahead()), Str([])) && !StartsWith(old(Ahead()), Str([1]))
      ensures old(Ready()) && r.Err? ==> r.error in {InvalidBool, UintFault(old(Ahead()), old(stack) != [], 1)}
    {
      hide Sound, HeaderOf, Window, Backed, Allows, Moved, Follows;
      var num := Uint(8);
      assert ToBytes(0) == [] && ToBytes(1) == ToBytes(0) + [1] == [1] && Pow256(1) == 256 * Pow256(0) == 256;
      if num.Err? {
        return Err(num.error);
      }
      if old(Ready()) && num.value > 1 {
        OtherUint(old(Ahead()), old(At()), num.value, At());
      }
      match num.value
      case 0 => return Ok(false);
      case 1 => return Ok(true);
      case _ => return Err(InvalidBool);
    }

    /** Enters a list. */
    method List() returns (r: Result<nat>)
      requires Valid()
      modifies this
      ensures Valid() && (r.Ok? ==> kind.None? && |stack| == |old(stack)| + 1)
      ensures r.Err? ==> |stack| == |old(stack)|
      ensures input == old(input) && rpos >= old(rpos) && (r.Ok? ==> stack != [])
      ensures old(Ready()) ==> EnteredList(old(Ahead()), old(At()), r, At())
      ensures old(Ready()) && r.Err? ==>
        r.error == if NoValue(old(Ahead())) then ValueFault(old(Ahead()), old(stack) != []) else ExpectedList
      ensures old(Ready()) && r.Ok? ==> Ready() && |Ahead()| == r.value
      ensures old(Ready() && kind.Some?) && r.Ok? ==> r.value == old(size) && At() == Pushed(old(At()), r.value)
    {
      hide Sound, HeaderOf, Window, Backed, Allows, Moved, Follows, NoList;
      var k, n, err := NextKind();
      if err.Some? {
        if old(Ready()) {
          NoValueNoList(old(Ahead()));
        }
        return Err(err.value);
      }
      if old(Ready()) {
        ListAhead(seen, old(At()), At(), k, n);
      }
      if k != Kind.List {
        return Err(ExpectedList);
      }
      PushedSound(At(), n);
      stack := stack + [ListPos(0, n)];
      kind, size, seen := None, 0, [];
      return Ok(n);
    }

    /** Leaves a list that has been read to its end. */
    method ListEnd() returns (err: Option<Error>)
      requires Valid()
      modifies this
      ensures Valid() && input == old(input) && rpos == old(rpos)
      ensures err == if old(stack) == [] then Some(NotInList)
        else if Top(old(stack)).pos != Top(old(stack)).size then Some(NotAtEOL) else None
      ensures err.Some? ==> At() == old(At()) && kind == old(kind)
      ensures err.None? ==> At() == Popped(old(At())) && kind.None?
    {
      hide Sound, HeaderOf, Window, Backed;
      if stack == [] {
        return Some(NotInList);
      }
      var tos := stack[|stack| - 1];
      if tos.pos != tos.size {
        return Some(NotAtEOL);
      }
      PoppedSound(At());
      stack := stack[..|stack| - 1];
      if stack != [] {
        stack := stack[|stack| - 1 := ListPos(stack[|stack| - 1].pos + tos.size, stack[|stack| - 1].size)];
      }
      kind, size, seen := None, 0, [];
      return None;
    }
  }

  lemma Continues(s: seq<byte>, i: nat, j: nat, k: nat)
    requires i <= j <= k <= |s|
    ensures s[i..j] + s[j..k] == s[i..k]
  {
  }

  /** From position p the header h has been read, as kind k and size n, to position q; or there is none. */
  ghost predicate HeaderRead(p: Position, h: Option<Header>, k: Kind, n: nat, err: Option<Error>, q: Position)
    requires Backed(p)
  {
    match h
    case None => err.Some?
    case Some(Header(kind, tag, size)) =>
      err.None? && k == kind && n == size && 1 <= tag <= |Window(p)| && tag <= p.remaining && q == Moved(p, tag)
  }

  lemma FirstByte(p: Position)
    requires Backed(p)
    ensures Allows(p, 1) <==> Window(p) != []
    ensures Window(p) != [] ==> p.rpos < |p.input| && Window(p)[0] == p.input[p.rpos] && 1 <= p.remaining
    ensures Window(p) != [] ==> Window(p)[..1] == [p.input[p.rpos]]
  {
  }

  /** When the long header behind the tag byte at p is in order, in terms of the bytes that ReadUint reads. */
  lemma LongHeaderRead(p: Position, n: nat, k: Kind)
    requires Backed(p) && Window(p) != [] && 1 <= n <= 8
    ensures 1 <= p.remaining && Backed(Moved(p, 1))
    ensures Allows(Moved(p, 1), n) <==> 1 + n <= |Window(p)|
    ensures var q := Moved(p, 1);
      match LongHeader(k, Window(p), n)
      case None => Allows(q, n) ==> q.input[q.rpos] == 0 || FromBytes(q.input[q.rpos..q.rpos + n]) < 56
      case Some(h) =>
        Allows(q, n) && n <= q.remaining && Moved(q, n) == Moved(p, h.tag) && h.tag <= p.remaining
          && h.tag <= |Window(p)|
        && q.input[q.rpos] != 0 && h == Header(k, 1 + n, FromBytes(q.input[q.rpos..q.rpos + n])) && h.size >= 56
  {
    hide FromBytes, HeaderOf;
    MovedBacked(p, 1);
    var w, q := Window(p), Moved(p, 1);
    assert Room(q) == |w| - 1;
    if n <= |w| - 1 {
      MovedTwice(p, 1, n);
      TagBytes(p, n);
    }
    hide Backed, Moved, Window, Sound;
  }

  lemma TagBytes(p: Position, n: nat)
    requires Backed(p) && 1 <= n <= |Window(p)| - 1
    ensures p.rpos + 1 + n <= |p.input| && Window(p)[1] == p.input[p.rpos + 1]
    ensures Window(p)[1..1 + n] == p.input[p.rpos + 1..p.rpos + 1 + n]
  {
    SliceOfSlice(p.input, p.rpos, Room(p), 1, 1 + n);
  }

  /** There is no complete value at the front of w. */
  predicate NoValue(w: seq<byte>) {
    HeaderOf(w).None? || HeaderOf(w).value.tag + HeaderOf(w).value.size > |w|
  }

  ghost function HeaderBytes(p: Position): seq<byte>
    requires Backed(p) && HeaderOf(Window(p)).Some?
  {
    Window(p)[..HeaderOf(Window(p)).value.tag]
  }

  lemma EmptyWindow(p: Position)
    requires Backed(p) && p.stack != [] && Top(p.stack).pos == Top(p.stack).size
    ensures Window(p) == [] && NoValue([] + Window(p))
  {
  }

  /** Reading a header splits what is ahead into the header's bytes and what is left of the level. */
  lemma HeaderAhead(p: Position, k: Kind, n: nat, q: Position)
    requires Backed(p) && HeaderRead(p, HeaderOf(Window(p)), k, n, None, q)
    ensures Backed(q) && HeaderBytes(p) + Window(q) == Window(p) == [] + Window(p)
    ensures HeaderOf(Window(p)) == Some(Header(k, |HeaderBytes(p)|, n)) && HeaderBytes(p) != []
    ensures Allows(q, n) <==> !NoValue(Window(p))
    ensures Follows(p, q) && q.remaining < p.remaining
    ensures k == Byte ==> HeaderBytes(p) == Window(p)[..1]
  {
    hide HeaderOf, Backed, Moved, Window, Sound, Allows, Follows;
    var tag := HeaderOf(Window(p)).value.tag;
    MovedBacked(p, tag);
    MovedRemaining(p, tag);
    assert Room(q) == |Window(p)| - tag;
    FollowsMoved(p, tag);
    if k == Byte {
      SmallByte(Window(p));
    }
    var w := Window(p);
    assert w[..tag] + w[tag..] == w;
  }

  lemma MovedRemaining(p: Position, n: nat)
    requires Backed(p) && n <= p.remaining
    ensures Moved(p, n).remaining == p.remaining - n
  {
  }

  /** Reading never gets ahead of the limit. */
  lemma BackedBefore(p: Position, q: Position)
    requires Sound(p) && p.input == q.input && p.limited == q.limited
    requires p.limited ==> q.rpos + q.remaining == p.rpos + p.remaining
    ensures Backed(q) ==> Backed(p)
  {
  }

  lemma OneByte(s: seq<byte>, i: nat)
    requires i < |s|
    ensures FromBytes(s[i..i + 1]) == s[i]
  {
    assert s[i..i + 1] == [s[i]] && [s[i]][..0] == [];
  }

  lemma EightBytes(s: seq<byte>)
    requires |s| == 8
    ensures FromBytes(s) < TWO_64
  {
    BytesBound(s);
    assert Pow256(8) == TWO_64;
  }

  lemma NoValueNoItem(w: seq<byte>)
    requires |w| < TWO_64 && NoValue(w)
    ensures NoItem(w) && NoString(w)
  {
    NoHeaderNoItem(w);
  }

  /** No string is encoded at the front of w. */
  ghost predicate NoString(w: seq<byte>) {
    forall s: seq<byte> :: !StartsWith(w, Str(s))
  }

  /** With w ahead at position p, Bytes takes the encoding of r off, ending at q, or there is no such encoding. */
  ghost predicate TookString(w: seq<byte>, p: Position, r: Result<seq<byte>>, q: Position)
    requires Backed(p)
  {
    match r
    case Ok(s) => Backed(q) && Follows(p, q) && w == EncodeStr(s) + Window(q)
    case Err(_) => NoString(w)
  }

  /** What Bytes finds behind a header. */
  lemma StringAhead(seen: seq<byte>, p0: Position, p: Position, k: Kind, n: nat)
    requires Backed(p0) && Follows(p0, p) && Backed(p) && n <= |Window(p)| && |seen + Window(p)| < TWO_64
    requires HeaderOf(seen + Window(p)) == Some(Header(k, |seen|, n))
    ensures p.rpos + n <= |p.input| && Allows(p, n) && n <= p.remaining && Backed(Moved(p, n))
    ensures var w, content := seen + Window(p), p.input[p.rpos..p.rpos + n];
      match k
      case Byte => TookString(w, p0, Ok(seen), p)
      case String => if n == 1 && content[0] < 0x80 then NoString(w) else TookString(w, p0, Ok(content), Moved(p, n))
      case List => NoString(w)
  {
    var w, content := seen + Window(p), p.input[p.rpos..p.rpos + n];
    ReadContent(seen, p0, p, n);
    hide Follows, Moved, Backed, EncodeStr, Window, HeaderOf;
    match k
    case Byte =>
      SmallByte(w);
      ByteItem(w);
      assert w[..1] == seen == [w[0]];
    case String =>
      if n == 1 && content[0] < 0x80 {
        NoHeaderNoItem(w);
      } else {
        StringItem(w);
        assert w[..|seen| + n] == seen + content;
      }
    case List =>
      ListNoString(w);
  }

  lemma ListNoString(w: seq<byte>)
    requires HeaderOf(w).Some? && HeaderOf(w).value.kind == Kind.List && |w| < TWO_64
    ensures NoString(w)
  {
    forall s: seq<byte> ensures !StartsWith(w, Str(s)) {
      if StartsWith(w, Str(s)) {
        StartsWithHeader(w, Str(s));
      }
    }
  }

  /** Raw takes the first value off w, byte for byte. */
  ghost predicate TookValue(w: seq<byte>, p: Position, r: Result<seq<byte>>, q: Position)
    requires Backed(p)
  {
    match r
    case Ok(b) =>
      Backed(q) && Follows(p, q) && w == b + Window(q) && !NoValue(w)
        && |b| == HeaderOf(w).value.tag + HeaderOf(w).value.size
    case Err(_) => NoValue(w)
  }

  lemma ValueAhead(seen: seq<byte>, p0: Position, p: Position, k: Kind, n: nat)
    requires Backed(p0) && Follows(p0, p) && Backed(p) && n <= |Window(p)| && |seen + Window(p)| < TWO_64
    requires HeaderOf(seen + Window(p)) == Some(Header(k, |seen|, n))
    ensures p.rpos + n <= |p.input| && Allows(p, n) && n <= p.remaining && Backed(Moved(p, n))
    ensures var w, content := seen + Window(p), p.input[p.rpos..p.rpos + n];
      match k
      case Byte => TookValue(w, p0, Ok(seen), p)
      case String => TookValue(w, p0, Ok(StrHead(n) + content), Moved(p, n))
      case List => TookValue(w, p0, Ok(ListHead(n) + content), Moved(p, n))
  {
    var w, content := seen + Window(p), p.input[p.rpos..p.rpos + n];
    ByteHasNoContent(w);
    ReadContent(seen, p0, p, n);
    hide Follows, Moved, Backed, HeaderOf, Window;
    if k != Byte {
      HeaderIsHead(w);
    }
  }

  lemma ByteHasNoContent(w: seq<byte>)
    ensures HeaderOf(w).Some? && HeaderOf(w).value.kind == Byte ==> HeaderOf(w).value.size == 0
  {
  }

  /** No integer of at most n bytes is encoded at the front of w. */
  ghost predicate NoUint(w: seq<byte>, n: nat) {
    forall v: nat :: v < Pow256(n) ==> !StartsWith(w, Str(ToBytes(v)))
  }

  ghost predicate TookUint(w: seq<byte>, p: Position, n: nat, r: Result<nat>, q: Position)
    requires Backed(p)
  {
    match r
    case Ok(v) => v < Pow256(n) && Backed(q) && Follows(p, q) && w == EncodeStr(ToBytes(v)) + Window(q)
    case Err(_) => NoUint(w, n)
  }

  lemma NoValueNoUint(w: seq<byte>, n: nat)
    requires |w| < TWO_64 && NoValue(w)
    ensures NoUint(w, n)
  {
    NoHeaderNoItem(w);
  }

  /** Integers have no leading zero byte. */
  lemma UintStart(v: nat)
    ensures ToBytes(v) == [] || ToBytes(v)[0] != 0
  {
    FromToBytes(v);
  }

  /** Behind the header of a string of n bytes: no integer for too many bytes, a leading zero byte or a single small
      byte. */
  lemma NoUintBehind(w: seq<byte>, n: nat, max: nat)
    requires |w| < TWO_64 && !NoValue(w)
    requires var h := HeaderOf(w).value;
      match h.kind
      case Byte => w[0] == 0
      case String => h.size > max || (h.size > 0 && (w[h.tag] == 0 || (h.size == 1 && w[h.tag] < 0x80)))
      case List => true
    ensures NoUint(w, max)
  {
    forall v: nat | v < Pow256(max) ensures !StartsWith(w, Str(ToBytes(v))) {
      if StartsWith(w, Str(ToBytes(v))) {
        StartsWithHeader(w, Str(ToBytes(v)));
        ToBytesLength(v, max);
        UintStart(v);
      }
    }
  }

  lemma UintAhead(seen: seq<byte>, p0: Position, p: Position, k: Kind, n: nat, max: nat)
    requires Backed(p0) && Follows(p0, p) && Backed(p) && n <= |Window(p)| && |seen + Window(p)| < TWO_64
    requires HeaderOf(seen + Window(p)) == Some(Header(k, |seen|, n))
    ensures p.rpos + n <= |p.input| && Allows(p, n) && n <= p.remaining && Backed(Moved(p, n))
    ensures var w, content := seen + Window(p), p.input[p.rpos..p.rpos + n];
      match k
      case Byte => seen != [] && if seen[0] == 0 then NoUint(w, max) else max > 0 ==>
        TookUint(w, p0, max, Ok(seen[0]), p)
      case String =>
        if n > max || (n >= 2 && content[0] == 0) || (n > 0 && FromBytes(content) < 128) then NoUint(w, max)
        else TookUint(w, p0, max, Ok(FromBytes(content)), Moved(p, n))
      case List => NoUint(w, max)
  {
    var w, content := seen + Window(p), p.input[p.rpos..p.rpos + n];
    StringAhead(seen, p0, p, k, n);
    FirstOfContent(seen, p, n);
    hide Follows, Moved, Backed, HeaderOf, EncodeStr;
    match k
    case Byte =>
      SmallByte(w);
      if seen[0] == 0 {
        NoUintBehind(w, n, max);
      } else if max > 0 {
        assert ToBytes(seen[0]) == ToBytes(0) + [seen[0]] == seen;
        assert Pow256(max) == 256 * Pow256(max - 1);
      }
    case String =>
      if n > max || (n >= 2 && content[0] == 0) {
        NoUintBehind(w, n, max);
      } else {
        if n == 1 {
          assert content == [content[0]] && content[..0] == [] && FromBytes(content) == content[0];
        } else if n > 1 {
          LargeContent(content);
        }
        if n > 0 && FromBytes(content) < 128 {
          NoUintBehind(w, n, max);
        } else {
          ToFromBytes(content);
          ContentBound(content, max);
        }
      }
    case List =>
      NoUintBehind(w, n, max);
  }

  lemma FirstOfContent(seen: seq<byte>, p: Position, n: nat)
    requires Backed(p) && n <= |Window(p)|
    ensures n > 0 ==> p.rpos + n <= |p.input| && (seen + Window(p))[|seen|] == p.input[p.rpos]
  {
  }

  lemma SmallByte(w: seq<byte>)
    requires HeaderOf(w).Some? && HeaderOf(w).value.kind == Byte
    ensures HeaderOf(w).value.tag == 1 && HeaderOf(w).value.size == 0
  {
  }

  lemma ContentBound(content: seq<byte>, max: nat)
    requires |content| <= max
    ensures FromBytes(content) < Pow256(max)
  {
    BytesBound(content);
    Pow256Adds(|content|, max - |content|);
    Division.AtLeast(Pow256(|content|), Pow256(max - |content|));
  }

  /** Two bytes or more without leading zero make at least 256. */
  lemma LargeContent(content: seq<byte>)
    requires |content| >= 2 && content[0] != 0
    ensures FromBytes(content) >= 256
  {
    ToFromBytes(content[..|content| - 1]);
  }

  lemma OtherUint(w: seq<byte>, p: Position, v: nat, q: Position)
    requires Backed(p) && TookUint(w, p, 1, Ok(v), q) && |w| < TWO_64 && v > 1
    ensures !StartsWith(w, Str([])) && !StartsWith(w, Str([1]))
  {
    var s := ToBytes(v);
    assert StartsWith(w, Str(s));
    FromToBytes(v);
    assert FromBytes([]) == 0 && [1][..0] == [] && FromBytes([1]) == 1;
    if StartsWith(w, Str([])) {
      PrefixFree(w, Str(s), Str([]));
    }
    if StartsWith(w, Str([1])) {
      PrefixFree(w, Str(s), Str([1]));
    }
  }

  /** No list header with all its content is at the front of w. */
  ghost predicate NoList(w: seq<byte>) {
    NoValue(w) || HeaderOf(w).value.kind != Kind.List
  }

  /** List reads the header of a list of r bytes, which become the new level; w is what was ahead. */
  ghost predicate EnteredList(w: seq<byte>, p: Position, r: Result<nat>, q: Position)
    requires Backed(p)
  {
    match r
    case Ok(n) =>
      !NoList(w) && HeaderOf(w).value.size == n && Backed(q) &&
      Window(q) == w[HeaderOf(w).value.tag..HeaderOf(w).value.tag + n]
    case Err(_) => NoList(w)
  }

  lemma NoValueNoList(w: seq<byte>)
    requires NoValue(w)
    ensures NoList(w)
  {
  }

  lemma ListAhead(seen: seq<byte>, p0: Position, p: Position, k: Kind, n: nat)
    requires Backed(p0) && Backed(p) && n <= |Window(p)|
    requires HeaderOf(seen + Window(p)) == Some(Header(k, |seen|, n))
    ensures var w := seen + Window(p);
      if k == Kind.List then EnteredList(w, p0, Ok(n), Pushed(p, n)) else NoList(w)
  {
    var w := seen + Window(p);
    PushedWindow(p, n);
    assert w[|seen|..|seen| + n] == Window(p)[..n];
  }
}
