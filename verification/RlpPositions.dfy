/** Where a decoding stream stands: what is left of the input, of the input limit and of each open list. */
module RlpPositions {
  import opened Bytes
  import opened RlpFormat

  const TWO_63: int := 0x8000_0000_0000_0000

  /** How many content bytes of an open list have been read, and how many it has. */
  datatype ListPos = ListPos(pos: nat, size: nat)

  datatype Position = Position(input: seq<byte>, rpos: nat, limited: bool, remaining: nat, stack: seq<ListPos>)

  function Top(stack: seq<ListPos>): ListPos
    requires stack != []
  {
    stack[|stack| - 1]
  }

  /** The stack after n more bytes of the innermost list. */
  function Shift(stack: seq<ListPos>, n: nat): seq<ListPos> {
    if stack == [] then [] else stack[|stack| - 1 := ListPos(Top(stack).pos + n, Top(stack).size)]
  }

  /** No list is read past its end, and each open list fits in what remained of the list around it. */
  ghost predicate Nested(stack: seq<ListPos>) {
    && (forall i :: 0 <= i < |stack| ==> stack[i].pos <= stack[i].size < TWO_64)
    && (forall i :: 0 < i < |stack| ==> stack[i - 1].pos + stack[i].size <= stack[i - 1].size)
  }

  /** How many bytes it takes to finish all open lists. An open list is not yet counted in the list around it. */
  ghost function Pending(stack: seq<ListPos>): int {
    if stack == [] then 0
    else if |stack| == 1 then stack[0].size - stack[0].pos
    else Pending(stack[..|stack| - 1]) - Top(stack).pos
  }

  /** What holds of every reachable stream: the limit suffices to finish all open lists. */
  ghost predicate Sound(p: Position) {
    && p.rpos <= |p.input|
    && Nested(p.stack)
    && p.remaining < TWO_64
    && (p.limited ==> Pending(p.stack) <= p.remaining)
  }

  /** The stream may read n more bytes at this level. */
  predicate Allows(p: Position, n: nat) {
    if p.stack != [] then n <= Top(p.stack).size - Top(p.stack).pos else p.limited ==> n <= p.remaining
  }

  lemma {:induction false} PendingCovers(stack: seq<ListPos>)
    requires Nested(stack) && stack != []
    ensures 0 <= Top(stack).size - Top(stack).pos <= Pending(stack)
  {
    if |stack| > 1 {
      PendingCovers(stack[..|stack| - 1]);
    }
  }

  /** The stream after its bookkeeping for n bytes, before they are read from the input. */
  function Charged(p: Position, n: nat): Position
    requires p.limited ==> n <= p.remaining
  {
    p.(stack := Shift(p.stack, n), remaining := if p.limited then p.remaining - n else p.remaining)
  }

  lemma TopFits(p: Position)
    requires Sound(p)
    ensures p.stack != [] ==> Top(p.stack).pos <= Top(p.stack).size
    ensures p.rpos <= |p.input|
  {
  }

  /** Inside a list the limit is never what stops a read. */
  lemma LimitCovers(p: Position, n: nat)
    requires Sound(p) && Allows(p, n)
    ensures p.limited ==> n <= p.remaining
  {
    if p.stack != [] {
      PendingCovers(p.stack);
    }
  }

  lemma ChargedSound(p: Position, n: nat)
    requires Sound(p) && Allows(p, n)
    ensures (p.limited ==> n <= p.remaining) && Sound(Charged(p, n))
  {
    LimitCovers(p, n);
    var k := |p.stack|;
    if k > 1 {
      assert Shift(p.stack, n)[..k - 1] == p.stack[..k - 1];
    }
  }

  /** A stream over a byte slice that holds at least as many bytes as the limit says. */
  ghost predicate Backed(p: Position) {
    Sound(p) && p.limited && p.remaining <= |p.input| - p.rpos && |p.input| < TWO_63
  }

  /** How many bytes may still be read at this level. */
  ghost function Room(p: Position): (n: nat)
    requires Backed(p)
    ensures n <= p.remaining && forall k: nat :: Allows(p, k) <==> k <= n
  {
    if p.stack == [] then p.remaining
    else
      PendingCovers(p.stack);
      Top(p.stack).size - Top(p.stack).pos
  }

  /** The bytes that may still be read at this level. */
  ghost function Window(p: Position): (w: seq<byte>)
    requires Backed(p)
    ensures |w| == Room(p)
  {
    p.input[p.rpos..p.rpos + Room(p)]
  }

  /** The stream after reading n bytes. */
  ghost function Moved(p: Position, n: nat): Position
    requires p.limited ==> n <= p.remaining
  {
    Charged(p, n).(rpos := p.rpos + n)
  }

  lemma MovedBacked(p: Position, n: nat)
    requires Backed(p) && n <= |Window(p)|
    ensures n <= p.remaining && Backed(Moved(p, n)) && Window(Moved(p, n)) == Window(p)[n..]
  {
    assert Allows(p, n);
    ChargedSound(p, n);
    assert Room(Moved(p, n)) == Room(p) - n;
  }

  lemma MovedTwice(p: Position, m: nat, n: nat)
    requires Backed(p) && m + n <= p.remaining
    ensures Moved(Moved(p, m), n) == Moved(p, m + n)
  {
  }

  ghost function Pushed(p: Position, size: nat): Position {
    p.(stack := p.stack + [ListPos(0, size)])
  }

  lemma PushedSound(p: Position, size: nat)
    requires Sound(p) && Allows(p, size) && size < TWO_64
    ensures Sound(Pushed(p, size))
  {
    assert Pushed(p, size).stack[..|p.stack|] == p.stack;
  }

  lemma SliceOfSlice(s: seq<byte>, i: nat, m: nat, from: nat, to: nat)
    requires from <= to <= m && i + m <= |s|
    ensures s[i..i + m][from..to] == s[i + from..i + to]
  {
    var whole := s[i..i + m];
    var y, z := whole[from..to], s[i + from..i + to];
    forall k | 0 <= k < to - from ensures y[k] == z[k] {
      assert y[k] == whole[from + k];
    }
  }

  lemma PushedWindow(p: Position, size: nat)
    requires Backed(p) && size <= |Window(p)|
    ensures Backed(Pushed(p, size)) && Window(Pushed(p, size)) == Window(p)[..size]
  {
    assert Allows(p, size);
    PushedSound(p, size);
    assert Room(Pushed(p, size)) == size;
    SliceOfSlice(p.input, p.rpos, Room(p), 0, size);
  }

  ghost function Popped(p: Position): Position
    requires p.stack != []
  {
    p.(stack := Shift(p.stack[..|p.stack| - 1], Top(p.stack).size))
  }

  lemma PoppedNested(p: Position)
    requires Nested(p.stack) && p.stack != []
    ensures Nested(Popped(p).stack)
  {
  }

  lemma PoppedSound(p: Position)
    requires Sound(p) && p.stack != [] && Top(p.stack).pos == Top(p.stack).size
    ensures Sound(Popped(p))
  {
    PoppedNested(p);
    hide Nested;
    var k := |p.stack|;
    var size := Top(p.stack).size;
    if k > 1 {
      var outer, popped := p.stack[..k - 1], Popped(p).stack;
      assert popped[..k - 2] == outer[..k - 2];
      assert Pending(p.stack) == Pending(outer) - size == Pending(popped);
    }
  }

  /** A list read from its header to its end is size bytes of the level around it. */
  lemma PushReadPop(p: Position, size: nat)
    requires Backed(p) && size <= |Window(p)|
    ensures size <= p.remaining && Popped(Moved(Pushed(p, size), size)) == Moved(p, size)
  {
    MovedBacked(p, size);
    assert Pushed(p, size).stack[..|p.stack|] == p.stack;
    var m := Moved(Pushed(p, size), size);
    assert m.stack[..|p.stack|] == p.stack;
  }

  /** q is where p stands after reading some bytes of its level. */
  ghost predicate Follows(p: Position, q: Position)
    requires Backed(p)
  {
    p.rpos <= q.rpos && q.rpos - p.rpos <= Room(p) && q == Moved(p, q.rpos - p.rpos)
  }

  lemma FollowsBacked(p: Position, q: Position)
    requires Backed(p) && Follows(p, q)
    ensures Backed(q) && Window(p) == p.input[p.rpos..q.rpos] + Window(q) && |q.stack| == |p.stack|
      && q.remaining <= p.remaining
  {
    MovedBacked(p, q.rpos - p.rpos);
  }

  /** Reading n bytes more of the level that is at p, having come from p0. */
  lemma ReadContent(seen: seq<byte>, p0: Position, p: Position, n: nat)
    requires Backed(p0) && Follows(p0, p) && Backed(p) && n <= |Window(p)|
    ensures p.rpos + n <= |p.input| && Allows(p, n) && n <= p.remaining
    ensures var q, content := Moved(p, n), p.input[p.rpos..p.rpos + n];
      Backed(q) && Follows(p0, q) && seen + Window(p) == seen + content + Window(q)
      && (seen + Window(p))[|seen|..|seen| + n] == content && (seen + Window(p))[..|seen|] == seen
  {
    MovedBacked(p, n);
    FollowsMoved(p, n);
    FollowsBacked(p, Moved(p, n));
    FollowsTrans(p0, p, Moved(p, n));
    hide Backed, Follows, Window, Moved;
    var content, w := p.input[p.rpos..p.rpos + n], Window(Moved(p, n));
    assert seen + (content + w) == seen + content + w;
    assert (seen + content + w)[|seen|..|seen| + n] == content;
  }

  lemma FollowsShrinks(p: Position, q: Position)
    requires Backed(p) && Follows(p, q) && Backed(q) && |Window(q)| < |Window(p)|
    ensures q.remaining < p.remaining
  {
  }

  /** A list read to its end is size bytes of the level around it. */
  lemma LeaveList(p: Position, size: nat, q: Position)
    requires Backed(p) && size <= |Window(p)| && Backed(Pushed(p, size)) && Follows(Pushed(p, size), q)
    requires Backed(q) && Window(q) == []
    ensures q.stack != [] && Top(q.stack).pos == Top(q.stack).size
    ensures Follows(p, Popped(q)) && Backed(Popped(q)) && Window(Popped(q)) == Window(p)[size..]
  {
    PushedWindow(p, size);
    FollowsBacked(Pushed(p, size), q);
    MovedBacked(Pushed(p, size), q.rpos - p.rpos);
    assert q == Moved(Pushed(p, size), size);
    PushReadPop(p, size);
    FollowsMoved(p, size);
    MovedBacked(p, size);
    assert Room(q) == 0;
  }

  lemma FollowsTrans(p: Position, q: Position, r: Position)
    requires Backed(p) && Follows(p, q) && Backed(q) && Follows(q, r)
    ensures Follows(p, r)
  {
    var m, n := q.rpos - p.rpos, r.rpos - q.rpos;
    MovedBacked(p, m);
    assert Room(q) == Room(p) - m;
    MovedTwice(p, m, n);
  }

  lemma FollowsRefl(p: Position)
    requires Backed(p)
    ensures Follows(p, p)
  {
    assert Shift(p.stack, 0) == p.stack;
  }

  lemma FollowsMoved(p: Position, n: nat)
    requires Backed(p) && n <= Room(p)
    ensures Follows(p, Moved(p, n))
  {
  }
}
