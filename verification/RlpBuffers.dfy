/** What an encoding buffer stands for: string data with list headers to be put in between. */
module RlpBuffers {
  import opened Bytes
  import opened RlpFormat

  datatype HeadVal = HeadVal(offset: nat, size: nat)

  /** str is all data except list headers, hs the headers in order of position, and open the indices of those headers
      whose lists are still being written, outermost first. */
  datatype Buffer = Buffer(str: seq<byte>, hs: seq<HeadVal>, open: seq<nat>)

  /** The headers of a piece of the buffer lie in order within the piece. */
  ghost predicate Within(hs: seq<HeadVal>, from: nat, to: nat) {
    && from <= to
    && (forall i :: 0 <= i < |hs| ==> from <= hs[i].offset <= to)
    && (forall i, j :: 0 <= i < j < |hs| ==> hs[i].offset <= hs[j].offset)
  }

  /** The data between from and to with its headers put in. */
  ghost function Render(str: seq<byte>, hs: seq<HeadVal>, from: nat, to: nat): seq<byte>
    requires Within(hs, from, to) && to <= |str|
  {
    if hs == [] then str[from..to]
    else
      var last := hs[|hs| - 1];
      Render(str, hs[..|hs| - 1], from, last.offset) + ListHead(last.size) + str[last.offset..to]
  }

  ghost function HeadSizes(hs: seq<HeadVal>): nat {
    if hs == [] then 0 else HeadSizes(hs[..|hs| - 1]) + |ListHead(hs[|hs| - 1].size)|
  }

  lemma {:induction false} RenderLength(str: seq<byte>, hs: seq<HeadVal>, from: nat, to: nat)
    requires Within(hs, from, to) && to <= |str|
    ensures |Render(str, hs, from, to)| == to - from + HeadSizes(hs)
  {
    if hs != [] {
      RenderLength(str, hs[..|hs| - 1], from, hs[|hs| - 1].offset);
    }
  }

  lemma SliceAppend(s: seq<byte>, more: seq<byte>, i: nat, j: nat)
    requires i <= j <= |s|
    ensures (s + more)[i..j] == s[i..j] && (s + more)[i..|s + more|] == s[i..|s|] + more
  {
  }

  /** Data added at the end is added to what is rendered, and does not disturb what lies before. */
  lemma {:induction false} RenderAppend(str: seq<byte>, more: seq<byte>, hs: seq<HeadVal>, from: nat, to: nat)
    requires Within(hs, from, to) && to <= |str|
    ensures Within(hs, from, |str + more|) && Render(str + more, hs, from, to) == Render(str, hs, from, to)
    ensures to == |str| ==> Render(str + more, hs, from, |str + more|) == Render(str, hs, from, to) + more
  {
    hide ListHead, Render;
    var all := str + more;
    if hs == [] {
      SliceAppend(str, more, from, to);
      RenderNone(str, from, to);
      RenderNone(all, from, to);
      RenderNone(all, from, |all|);
    } else {
      var gs, last := hs[..|hs| - 1], hs[|hs| - 1];
      WithinFirst(hs, from, to);
      SliceAppend(str, more, last.offset, to);
      RenderAppend(str, more, gs, from, last.offset);
      hide Within;
      RenderSnoc(str, gs, last, from, to);
      RenderSnoc(all, gs, last, from, to);
      RenderSnoc(all, gs, last, from, |all|);
      assert gs + [last] == hs;
      Assoc(Render(str, gs, from, last.offset) + ListHead(last.size), str[last.offset..to], more);
    }
  }

  /** Render on a last header. */
  lemma RenderSnoc(str: seq<byte>, hs: seq<HeadVal>, last: HeadVal, from: nat, to: nat)
    requires Within(hs, from, last.offset) && last.offset <= to <= |str|
    ensures Within(hs + [last], from, to)
    ensures Render(str, hs + [last], from, to)
      == Render(str, hs, from, last.offset) + ListHead(last.size) + str[last.offset..to]
  {
    hide ListHead;
    assert (hs + [last])[..|hs + [last]| - 1] == hs;
  }

  lemma RenderNone(str: seq<byte>, from: nat, to: nat)
    requires from <= to <= |str|
    ensures Within([], from, to) && Render(str, [], from, to) == str[from..to]
  {
  }

  lemma Assoc4(a: seq<byte>, b: seq<byte>, c: seq<byte>, d: seq<byte>, e: seq<byte>)
    ensures a + b + (c + d + e) == a + b + c + d + e
  {
  }

  /** A header between two pieces joins them. */
  lemma {:induction false} RenderJoin(str: seq<byte>, hs: seq<HeadVal>, h: HeadVal, gs: seq<HeadVal>, from: nat,
      to: nat)
    requires Within(hs, from, h.offset) && Within(gs, h.offset, to) && to <= |str|
    ensures Within(hs + [h] + gs, from, to)
    ensures Render(str, hs + [h] + gs, from, to)
      == Render(str, hs, from, h.offset) + ListHead(h.size) + Render(str, gs, h.offset, to)
  {
    hide ListHead, Render;
    WithinJoin(hs, h, gs, from, to);
    if gs == [] {
      assert hs + [h] + gs == hs + [h];
      RenderSnoc(str, hs, h, from, to);
      RenderNone(str, h.offset, to);
    } else {
      var last := gs[|gs| - 1];
      var gs' := gs[..|gs| - 1];
      RenderJoin(str, hs, h, gs', from, last.offset);
      hide Within;
      RenderSnoc(str, hs + [h] + gs', last, from, to);
      assert gs' + [last] == gs && hs + [h] + gs' + [last] == hs + [h] + gs;
      WithinFirst(gs, h.offset, to);
      RenderSnoc(str, gs', last, h.offset, to);
      Assoc4(Render(str, hs, from, h.offset), ListHead(h.size), Render(str, gs', h.offset, last.offset),
        ListHead(last.size), str[last.offset..to]);
    }
  }

  lemma WithinFirst(gs: seq<HeadVal>, from: nat, to: nat)
    requires Within(gs, from, to) && gs != []
    ensures var last := gs[|gs| - 1];
      from <= last.offset <= to && Within(gs[..|gs| - 1], from, last.offset)
  {
  }

  lemma WithinJoin(hs: seq<HeadVal>, h: HeadVal, gs: seq<HeadVal>, from: nat, to: nat)
    requires Within(hs, from, h.offset) && Within(gs, h.offset, to)
    ensures Within(hs + [h] + gs, from, to)
  {
  }

  ghost predicate Increasing(open: seq<nat>, n: nat) {
    && (forall j :: 0 <= j < |open| ==> open[j] < n)
    && (forall i, j :: 0 <= i < j < |open| ==> open[i] < open[j])
  }

  /** Total size of the finished headers among the first i. */
  ghost function Closed(b: Buffer, i: nat): nat
    requires i <= |b.hs|
  {
    if i == 0 then 0
    else Closed(b, i - 1) + if i - 1 in b.open then 0 else |ListHead(b.hs[i - 1].size)|
  }

  /** An open header holds the size of all finished headers before it. */
  ghost predicate Good(b: Buffer) {
    && Within(b.hs, 0, |b.str|)
    && Increasing(b.open, |b.hs|)
    && forall j :: 0 <= j < |b.open| ==> b.hs[b.open[j]].size == Closed(b, b.open[j])
  }

  /** First header, first byte, end of headers and end of bytes of an open level; level 0 is the outermost. */
  ghost function LoHead(b: Buffer, j: nat): nat
    requires j <= |b.open|
  {
    if j == 0 then 0 else b.open[j - 1] + 1
  }

  ghost function LoByte(b: Buffer, j: nat): nat
    requires Good(b) && j <= |b.open|
  {
    if j == 0 then 0 else b.hs[b.open[j - 1]].offset
  }

  ghost function HiHead(b: Buffer, j: nat): nat
    requires j <= |b.open|
  {
    if j == |b.open| then |b.hs| else b.open[j]
  }

  ghost function HiByte(b: Buffer, j: nat): nat
    requires Good(b) && j <= |b.open|
  {
    if j == |b.open| then |b.str| else b.hs[b.open[j]].offset
  }

  lemma LevelBounds(b: Buffer, j: nat)
    requires Good(b) && j <= |b.open|
    ensures LoHead(b, j) <= HiHead(b, j) <= |b.hs| && HiByte(b, j) <= |b.str|
    ensures Within(b.hs[LoHead(b, j)..HiHead(b, j)], LoByte(b, j), HiByte(b, j))
  {
  }

  /** What has been written at level j so far, not counting the lists inside it that are still open. */
  ghost function Level(b: Buffer, j: nat): seq<byte>
    requires Good(b) && j <= |b.open|
  {
    LevelBounds(b, j);
    Render(b.str, b.hs[LoHead(b, j)..HiHead(b, j)], LoByte(b, j), HiByte(b, j))
  }

  ghost function Levels(b: Buffer): (ls: seq<seq<byte>>)
    requires Good(b)
    ensures |ls| == |b.open| + 1
  {
    seq(|b.open| + 1, j requires 0 <= j < |b.open| + 1 => Level(b, j))
  }

  /** The innermost level with more written to it. */
  ghost function Extend(levels: seq<seq<byte>>, more: seq<byte>): seq<seq<byte>>
    requires levels != []
  {
    levels[|levels| - 1 := levels[|levels| - 1] + more]
  }

  lemma {:induction false} ClosedSame(b: Buffer, c: Buffer, i: nat)
    requires i <= |b.hs| && i <= |c.hs|
    requires forall k :: 0 <= k < i ==> (k in b.open <==> k in c.open) && (k !in b.open ==> b.hs[k] == c.hs[k])
    ensures Closed(b, i) == Closed(c, i)
  {
    if i > 0 {
      ClosedSame(b, c, i - 1);
    }
  }

  ghost function Appended(b: Buffer, more: seq<byte>): Buffer {
    b.(str := b.str + more)
  }

  lemma AppendedGood(b: Buffer, more: seq<byte>)
    requires Good(b)
    ensures Good(Appended(b, more)) && Closed(Appended(b, more), |b.hs|) == Closed(b, |b.hs|)
  {
    hide ListHead;
    var c := Appended(b, more);
    forall i: nat | i <= |b.hs| ensures Closed(b, i) == Closed(c, i) {
      ClosedSame(b, c, i);
    }
    hide Closed;
  }

  lemma AppendGood(b: Buffer, more: seq<byte>)
    requires Good(b)
    ensures Good(Appended(b, more)) && Levels(Appended(b, more)) == Extend(Levels(b), more)
    ensures Closed(Appended(b, more), |b.hs|) == Closed(b, |b.hs|)
  {
    hide ListHead, Render, Closed;
    AppendedGood(b, more);
    var c := Appended(b, more);
    forall j | 0 <= j <= |b.open|
      ensures Level(c, j) == if j == |b.open| then Level(b, j) + more else Level(b, j)
    {
      LevelBounds(b, j);
      RenderAppend(b.str, more, b.hs[LoHead(b, j)..HiHead(b, j)], LoByte(b, j), HiByte(b, j));
    }
    hide Level, Good;
  }

  ghost function Opened(b: Buffer): Buffer {
    Buffer(b.str, b.hs + [HeadVal(|b.str|, Closed(b, |b.hs|))], b.open + [|b.hs|])
  }

  lemma OpenedGood(b: Buffer)
    requires Good(b)
    ensures Good(Opened(b)) && Closed(Opened(b), |b.hs| + 1) == Closed(b, |b.hs|)
  {
    hide ListHead, Closed, Within;
    var c := Opened(b);
    var n := |b.hs|;
    assert c.hs[n].offset == |b.str| && forall k :: 0 <= k < n ==> c.hs[k] == b.hs[k];
    forall i: nat | i <= n ensures Closed(b, i) == Closed(c, i) {
      ClosedSame(b, c, i);
    }
    ClosedStep(c, n + 1);
    assert c.open[|b.open|] == n;
    RenderSnoc(b.str, b.hs, c.hs[n], 0, |b.str|);
    assert Increasing(c.open, n + 1);
  }

  /** Levels that consist of the same headers between the same bytes. */
  lemma LevelSame(b: Buffer, c: Buffer, j: nat)
    requires Good(b) && Good(c) && j <= |b.open| && j <= |c.open| && b.str == c.str
    requires LoHead(b, j) == LoHead(c, j) && HiHead(b, j) == HiHead(c, j)
    requires LoByte(b, j) == LoByte(c, j) && HiByte(b, j) == HiByte(c, j)
    requires HiHead(b, j) <= |b.hs| && HiHead(b, j) <= |c.hs|
    requires forall k :: LoHead(b, j) <= k < HiHead(b, j) ==> b.hs[k] == c.hs[k]
    ensures Level(b, j) == Level(c, j)
  {
    LevelBounds(b, j);
    assert b.hs[LoHead(b, j)..HiHead(b, j)] == c.hs[LoHead(b, j)..HiHead(b, j)];
  }

  lemma OpenGood(b: Buffer)
    requires Good(b)
    ensures Good(Opened(b)) && Levels(Opened(b)) == Levels(b) + [[]]
    ensures Closed(Opened(b), |b.hs| + 1) == Closed(b, |b.hs|)
  {
    hide ListHead, Closed;
    var c := Opened(b);
    OpenedGood(b);
    forall j | 0 <= j <= |b.open| ensures Level(c, j) == Level(b, j) {
      LevelBounds(b, j);
      LevelSame(b, c, j);
    }
    LastLevel(c);
    hide Level, Good;
  }

  lemma LastLevel(c: Buffer)
    requires Good(c) && c.open != [] && c.open[|c.open| - 1] == |c.hs| - 1 && c.hs[|c.hs| - 1].offset == |c.str|
    ensures Level(c, |c.open|) == []
  {
  }

  ghost function Top(b: Buffer): nat
    requires b.open != []
  {
    b.open[|b.open| - 1]
  }

  /** The innermost list finished, its header holding the given size. */
  ghost function Ended(b: Buffer, size: nat): Buffer
    requires b.open != [] && Top(b) < |b.hs|
  {
    Buffer(b.str, b.hs[Top(b) := HeadVal(b.hs[Top(b)].offset, size)], b.open[..|b.open| - 1])
  }

  /** Behind the innermost open header all headers are finished. */
  lemma {:induction false} ClosedBehind(b: Buffer, i: nat)
    requires Good(b) && b.open != [] && Top(b) < i <= |b.hs|
    ensures Closed(b, i) == Closed(b, Top(b)) + HeadSizes(b.hs[Top(b) + 1..i])
  {
    hide ListHead, Good, Closed, HeadSizes;
    var t := Top(b);
    ClosedStep(b, i);
    if i > t + 1 {
      ClosedBehind(b, i - 1);
      HeadSizesStep(b.hs, t + 1, i);
      BehindOpen(b, i - 1);
    } else {
      NoHeadSizes(b.hs[t + 1..i]);
    }
  }

  lemma ClosedStep(b: Buffer, i: nat)
    requires 0 < i <= |b.hs|
    ensures Closed(b, i) == Closed(b, i - 1) + if i - 1 in b.open then 0 else |ListHead(b.hs[i - 1].size)|
  {
  }

  lemma HeadSizesStep(hs: seq<HeadVal>, lo: nat, i: nat)
    requires lo < i <= |hs|
    ensures HeadSizes(hs[lo..i]) == HeadSizes(hs[lo..i - 1]) + |ListHead(hs[i - 1].size)|
  {
    hide ListHead;
    assert hs[lo..i][..i - lo - 1] == hs[lo..i - 1];
  }

  lemma NoHeadSizes(hs: seq<HeadVal>)
    requires hs == []
    ensures HeadSizes(hs) == 0
  {
  }

  lemma BehindOpen(b: Buffer, i: nat)
    requires Good(b) && b.open != [] && Top(b) < i
    ensures i !in b.open
  {
    hide Closed, Within;
  }

  lemma {:induction false} ClosedAfterEnd(b: Buffer, size: nat, i: nat)
    requires Good(b) && b.open != [] && Top(b) < i <= |b.hs|
    ensures Closed(Ended(b, size), i) == Closed(b, i) + |ListHead(size)|
  {
    hide ListHead, Good, Closed;
    var c := Ended(b, size);
    var t := Top(b);
    OpenAfterEnd(b, size);
    ClosedStep(b, i);
    ClosedStep(c, i);
    if i == t + 1 {
      ClosedSame(b, c, t);
    } else {
      ClosedAfterEnd(b, size, i - 1);
      BehindOpen(b, i - 1);
    }
  }

  lemma OpenAfterEnd(b: Buffer, size: nat)
    requires Good(b) && b.open != []
    ensures Top(b) < |b.hs| && Top(b) !in Ended(b, size).open
    ensures forall k :: k != Top(b) ==> (k in b.open <==> k in Ended(b, size).open)
  {
    hide Closed, Within;
    var c := Ended(b, size);
    forall k | k in b.open && k != Top(b) ensures k in c.open {
      var j :| 0 <= j < |b.open| && b.open[j] == k;
      assert c.open[j] == k;
    }
  }

  /** listEnd computes the length of what was written to the list, and finishing the list puts that behind its
      header. */
  lemma EndGood(b: Buffer)
    requires Good(b) && b.open != []
    ensures var ls := Levels(b);
      var size := |ls[|ls| - 1]|;
      var c := Ended(b, size);
      size == |b.str| + Closed(b, |b.hs|) - b.hs[Top(b)].offset - b.hs[Top(b)].size
      && Good(c) && Closed(c, |b.hs|) == Closed(b, |b.hs|) + |ListHead(size)|
      && Levels(c) == Extend(ls[..|ls| - 1], ListHead(size) + ls[|ls| - 1])
    ensures Top(b) < |b.hs|
  {
    var size := |Level(b, |b.open|)|;
    hide ListHead, Closed, Render, HeadSizes;
    var k := |b.open|;
    var c := Ended(b, size);
    EndSize(b);
    ClosedAfterEnd(b, size, |b.hs|);
    EndedGood(b, size);
    OuterLevels(b, size);
    JoinLevels(b, size);
    hide Level, Good;
    var ls := Levels(b);
    assert Levels(c) == Extend(ls[..k], ListHead(size) + ls[k]);
  }

  lemma OuterLevels(b: Buffer, size: nat)
    requires Good(b) && b.open != [] && Good(Ended(b, size))
    ensures forall j :: 0 <= j < |b.open| - 1 ==> Level(Ended(b, size), j) == Level(b, j)
  {
    hide ListHead, Closed, Render, HeadSizes, Level;
    var c := Ended(b, size);
    forall j | 0 <= j < |b.open| - 1 ensures Level(c, j) == Level(b, j) {
      LevelBounds(b, j);
      LevelSame(b, c, j);
    }
  }

  lemma EndSize(b: Buffer)
    requires Good(b) && b.open != []
    ensures |Level(b, |b.open|)| == |b.str| + Closed(b, |b.hs|) - b.hs[Top(b)].offset - b.hs[Top(b)].size
  {
    hide ListHead, Closed, Render, HeadSizes;
    var k, t := |b.open|, Top(b);
    LevelBounds(b, k);
    assert b.hs[LoHead(b, k)..HiHead(b, k)] == b.hs[t + 1..] == b.hs[t + 1..|b.hs|];
    RenderLength(b.str, b.hs[t + 1..], b.hs[t].offset, |b.str|);
    ClosedBehind(b, |b.hs|);
  }

  lemma EndedGood(b: Buffer, size: nat)
    requires Good(b) && b.open != []
    ensures Good(Ended(b, size))
  {
    var c := Ended(b, size);
    forall j | 0 <= j < |c.open| ensures Closed(c, c.open[j]) == Closed(b, b.open[j]) {
      assert forall i :: 0 <= i < b.open[j] ==> (i in b.open <==> i in c.open);
      ClosedSame(b, c, b.open[j]);
    }
  }

  lemma JoinLevels(b: Buffer, size: nat)
    requires Good(b) && b.open != [] && Good(Ended(b, size))
    ensures var k := |b.open|;
      Level(Ended(b, size), k - 1) == Level(b, k - 1) + (ListHead(size) + Level(b, k))
  {
    hide ListHead, Closed, Render, HeadSizes;
    var k, t := |b.open|, Top(b);
    var c := Ended(b, size);
    LevelBounds(b, k - 1);
    LevelBounds(b, k);
    var lo := LoHead(b, k - 1);
    var hs, h, gs := b.hs[lo..t], c.hs[t], b.hs[t + 1..|b.hs|];
    JoinedHeads(b.hs, lo, t, h);
    var from := LoByte(b, k - 1);
    assert Level(b, k - 1) == Render(b.str, hs, from, h.offset);
    assert Level(b, k) == Render(b.str, gs, h.offset, |b.str|);
    RenderJoin(b.str, hs, h, gs, from, |b.str|);
    assert Level(c, k - 1) == Render(b.str, hs + [h] + gs, from, |b.str|);
    hide Level, Good;
    Assoc(Level(b, k - 1), ListHead(size), Level(b, k));
  }

  lemma JoinedHeads(all: seq<HeadVal>, lo: nat, t: nat, h: HeadVal)
    requires lo <= t < |all|
    ensures all[t := h][lo..|all|] == all[lo..t] + [h] + all[t + 1..|all|]
  {
  }

  /** With no list open the only level is everything rendered, and its size is known without rendering it. */
  lemma WholeBuffer(b: Buffer)
    requires Good(b) && b.open == []
    ensures Levels(b) == [Render(b.str, b.hs, 0, |b.str|)] && |Levels(b)[0]| == |b.str| + Closed(b, |b.hs|)
  {
    hide ListHead;
    assert b.hs[0..|b.hs|] == b.hs;
    RenderLength(b.str, b.hs, 0, |b.str|);
    AllClosed(b, |b.hs|);
  }

  lemma {:induction false} AllClosed(b: Buffer, i: nat)
    requires b.open == [] && i <= |b.hs|
    ensures Closed(b, i) == HeadSizes(b.hs[..i])
  {
    hide ListHead;
    if i > 0 {
      AllClosed(b, i - 1);
      assert b.hs[..i][..i - 1] == b.hs[..i - 1];
    }
    assert b.hs[..|b.hs|] == b.hs;
  }

  /** One more header, and then data up to a later position. */
  lemma RenderHead(str: seq<byte>, hs: seq<HeadVal>, i: nat, to: nat)
    requires Within(hs, 0, |str|) && i < |hs| && hs[i].offset <= to <= |str|
    ensures Within(hs[..i], 0, hs[i].offset) && Within(hs[..i + 1], 0, to)
    ensures Render(str, hs[..i + 1], 0, to)
      == Render(str, hs[..i], 0, hs[i].offset) + ListHead(hs[i].size) + str[hs[i].offset..to]
  {
    assert hs[..i + 1][..i] == hs[..i];
  }

  /** Data up to a later position without a header in between. */
  lemma RenderMore(str: seq<byte>, hs: seq<HeadVal>, to: nat, to1: nat)
    requires Within(hs, 0, to) && to <= to1 <= |str|
    ensures Within(hs, 0, to1) && Render(str, hs, 0, to1) == Render(str, hs, 0, to) + str[to..to1]
  {
    hide ListHead;
    if hs == [] {
      SliceSplit(str, 0, to, to1);
    } else {
      var last := hs[|hs| - 1];
      SliceSplit(str, last.offset, to, to1);
      Assoc(Render(str, hs[..|hs| - 1], 0, last.offset) + ListHead(last.size), str[last.offset..to], str[to..to1]);
    }
  }

  lemma SliceSplit(s: seq<byte>, i: nat, j: nat, k: nat)
    requires i <= j <= k <= |s|
    ensures s[i..k] == s[i..j] + s[j..k]
  {
  }

  lemma {:induction false} HeadSizesPrefix(hs: seq<HeadVal>, i: nat)
    requires i <= |hs|
    ensures HeadSizes(hs[..i]) <= HeadSizes(hs)
  {
    hide ListHead;
    if i == |hs| {
      assert hs[..i] == hs;
    } else {
      HeadSizesPrefix(hs[..|hs| - 1], i);
      assert hs[..|hs| - 1][..i] == hs[..i];
    }
  }

  /** The first i headers and the data up to a byte between header i and the next can be rendered by themselves. */
  ghost predicate Cut(str: seq<byte>, hs: seq<HeadVal>, i: nat, to: nat) {
    && Within(hs, 0, |str|) && i <= |hs| && to <= |str|
    && (i > 0 ==> hs[i - 1].offset <= to)
    && (i < |hs| ==> to <= hs[i].offset)
  }

  ghost function Before(str: seq<byte>, hs: seq<HeadVal>, i: nat, to: nat): seq<byte>
    requires Cut(str, hs, i, to)
  {
    Render(str, hs[..i], 0, to)
  }

  lemma CutStart(str: seq<byte>, hs: seq<HeadVal>)
    requires Within(hs, 0, |str|)
    ensures Cut(str, hs, 0, 0) && Before(str, hs, 0, 0) == []
  {
    assert hs[..0] == [];
  }

  lemma CutData(str: seq<byte>, hs: seq<HeadVal>, i: nat, to: nat)
    requires Cut(str, hs, i, to)
    ensures var end := if i < |hs| then hs[i].offset else |str|;
      to <= end && Cut(str, hs, i, end) && Before(str, hs, i, end) == Before(str, hs, i, to) + str[to..end]
  {
    RenderMore(str, hs[..i], to, if i < |hs| then hs[i].offset else |str|);
  }

  lemma CutHead(str: seq<byte>, hs: seq<HeadVal>, i: nat)
    requires i < |hs| && Cut(str, hs, i, hs[i].offset)
    ensures Cut(str, hs, i + 1, hs[i].offset)
    ensures Before(str, hs, i + 1, hs[i].offset) == Before(str, hs, i, hs[i].offset) + ListHead(hs[i].size)
  {
    RenderHead(str, hs, i, hs[i].offset);
    assert str[hs[i].offset..hs[i].offset] == [];
  }

  lemma CutEnd(str: seq<byte>, hs: seq<HeadVal>)
    requires Cut(str, hs, |hs|, |str|)
    ensures Before(str, hs, |hs|, |str|) == Render(str, hs, 0, |str|)
  {
    assert hs[..|hs|] == hs;
  }

  lemma {:induction false} BeforeIsPrefix(str: seq<byte>, hs: seq<HeadVal>, i: nat, to: nat)
    requires Cut(str, hs, i, to)
    ensures Before(str, hs, i, to) <= Render(str, hs, 0, |str|)
    decreases |hs| - i
  {
    hide Render, Within, ListHead, Before;
    CutData(str, hs, i, to);
    if i == |hs| {
      CutEnd(str, hs);
    } else {
      CutHead(str, hs, i);
      BeforeIsPrefix(str, hs, i + 1, hs[i].offset);
    }
  }

  /** What comes after a cut. */
  ghost function After(str: seq<byte>, hs: seq<HeadVal>, i: nat, to: nat): (rest: seq<byte>)
    requires Cut(str, hs, i, to)
    ensures Before(str, hs, i, to) + rest == Render(str, hs, 0, |str|)
  {
    BeforeIsPrefix(str, hs, i, to);
    Render(str, hs, 0, |str|)[|Before(str, hs, i, to)|..]
  }

  lemma CutLength(str: seq<byte>, hs: seq<HeadVal>, i: nat, to: nat)
    requires Cut(str, hs, i, to)
    ensures |Before(str, hs, i, to)| + |After(str, hs, i, to)| == |str| + HeadSizes(hs)
  {
    RenderLength(str, hs, 0, |str|);
  }
}
